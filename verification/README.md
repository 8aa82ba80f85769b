# ShigureOS: verified models of the memory manager and its neighbours

ShigureOS is a small i386 kernel. This project models, in Dafny, the parts whose correctness depends
on state that many calls share, and proves what those parts keep over every run.

* **Kernel heap.** Free memory is a search tree of blocks, balanced by rotations. `AvlTree` is the tree
  as a value, `AvlNodes` the same algorithms on linked nodes changed in place, `FreeBlocks` the searches,
  `HeapModel` allocation and freeing in 32-bit arithmetic as a state machine, `HeapArea` the heap object,
  `Unwinding`, `Drawing` and `NodeStorage` the re-entrant case in which a new tree node is itself allocated
  from the tree, `KernelHeap` whole runs of the kernel's own heap, where every free does that, `KernelRuns`
  runs of it that go wrong or nearly do, `AvlBalance` what the rotations achieve where stored heights are
  real, `FaultPath` the exact
  condition under which an insertion follows a null pointer, and `InsertionFault` and `HeapFault` runs of
  insertions and of heap calls on which it does. `Machine` holds bytes, words and pages for all modules.
* **Physical frames.** `Buddy` is the eight-level buddy allocator as a value, `FrameAllocator` its packed
  bitmaps.
* **Paging.** `Paging` is the two-level tables of section 4.3 of the Intel SDM, Volume 3A, with fork and
  isolation over runs; `PageAccess` what user mode may do with a page; `VmManager` the mutable tables over the frame allocator; `BootMap` the boot from
  nothing to the mapped kernel.
* **Terminal and shell.** `Terminal` and `TerminalDriver` are the scrolling screen, `LineEditor` the
  command line.
* **Keyboard, RAM disk, printf, processes.** `Keyboard`, `Initrd` and `InitrdFiles`, `Printf`, `ProcQueue`.

Where the original changes things step by step there is a class or a method with loops, and its
contract says that the new state is the one a function computes; the properties are proved about the
functions. Main theorems, by area: `HeapModel.HeapRuns`, `HeapModel.AllocServes`, `AvlBalance.InsertBalanced`, `AvlNodes.AvlInsert`, `AvlNodes.AvlDelete`,
`HeapArea.HeapArea.HeapFree`, `FaultPath.FaultsExactly`, `HeapFault.AllowedRunStops`,
`NodeStorage.InsertIntoOwnTree`, `Drawing.DrawingExact`, `KernelHeap.KernelHeapRuns`,
`KernelHeap.StaysUpExactly`, `KernelRuns.TurnRuns`; `Buddy.AllocationRuns`, `Buddy.FrameRuns`, `Buddy.MergeExact`; `Paging.ForkIsolates`,
`PageAccess.MappedAccess`, `BootMap.Boot`; `Terminal.WriteShows`,
`LineEditor.ShownSpelled`, `LineEditor.AstrayExactly`; `Keyboard.EveryInterleaving`,
`Initrd.PiecesRoundTrip`, `Printf.Print`.

## Where the code does not do what its comments say

The models follow the code. Each departure below is a proved statement, and where a property fails the
exact condition under which it holds is proved as well.

* **Insertion can follow a null pointer.** Stored heights can be too low because the rotations compare
  with the wrong child (`kernel/arch/i386/vm.c:685`, `kernel/arch/i386/vm.c:698`). On a fresh heap of one
  page, 44 requests of 8 bytes, one for the rest, and frees of every other block numbered
  20 21 8 5 4 10 13 17 19 2 15 are all allowed, and the last free rotates towards a child that is not there
  (`HeapFault.AllowedRunStops`). An insertion faults if and only if some node on its search path leans away
  from the new block by two and the child it leans to is empty on the inner side
  (`FaultPath.FaultsExactly`); reading the path beforehand is enough to rule it out
  (`FaultPath.SturdyNeverFaults`), and with at most three free blocks no heap call ever faults
  (`HeapFault.FewBlocksRun`; four can: `FaultPath.FourBlocksCanFault`). Deletion never faults. In the heap
  models a fault ends the run; everything up to it is safe.
* **A free on the kernel's heap can destroy it.** The node for the freed block is drawn from the heap itself,
  while its tree is being changed. If no block can give 28 bytes the node is written through a null pointer
  (`kernel/arch/i386/vm.c:650-651`): take the whole heap and give it back (`KernelRuns.NoStorageRun`). If the
  draw uses up a block, its node is deleted (`kernel/arch/i386/vm.c:261-262`), and the deletion may rotate.
  The insertion then still links every node it came down by to what the call below returned, on the side it
  remembers (`kernel/arch/i386/vm.c:717-720`), and leaves the other side as it finds it. `Unwinding.Resumed` is
  the tree of those links. If a node occurs in it twice, the nodes left form no tree; otherwise they form
  exactly `Along` over it (`NodeStorage.InsertIntoOwnTree`). That is the right tree, in order and with the old
  blocks less the storage plus the freed one, if and only if the draw is `Traceable`: the nodes strung together
  again read like the drawn tree from left to right, and no turn of the path has become a wrong one
  (`Drawing.DrawingExact`).
  - A rotation on the path can be harmless, because linking undoes it: a single one where the path goes on to
    the inner grandchild (`Drawing.UsedUpOffPath`). Of two runs of thirteen calls that differ in the order of
    two frees, one ends with the right heap after its root was turned, the other with two nodes that are each
    other's children (`KernelRuns.TurnRuns`).
  - Unlinking a node of the path is never harmless. A used-up node with at most one child is linked again with no
    bytes in it (`Drawing.UsedUpOnPath`); after three calls such a node is the root, and no search ever sees the bytes just
    freed (`KernelRuns.UsedUpRun`). With two children it has taken over the block of its successor, and if that
    is on the path too, its node is linked again and the block is in the tree twice (`Drawing.SuccessorOnPath`);
    after nine calls the next two requests get the same address (`KernelRuns.DoubledRun`).

  A free leaves the right heap if and only if `KernelHeap.FreeCompletes` holds of the heap before it
  (`KernelHeap.FreeCompletesExactly`), a run goes on with the right heap if and only if all its calls do
  (`KernelHeap.StaysUpExactly`); at most three free blocks and room for a node are enough
  (`KernelHeap.RoomyStaysUp`).
* **A deletion can leave the tree unbalanced.** Insertion into a balanced tree with real stored heights keeps it
  balanced (`AvlBalance.InsertBalanced`); deletion does so step by step (`AvlBalance.DeleteStepBalanced`), but a
  step can store a height that is too low and mislead the next (`AvlBalance.DeletionCanUnbalance`).
* **User mode can reach no page of a table made by a lookup.** The kernel's code is meant to be readable from user
  space (`kernel/arch/i386/vm.c:83`) and the moved stack to be written there (`kernel/arch/i386/proc.c:104`), and
  their page entries say so, but the lookup writes a directory entry without the user flag
  (`kernel/arch/i386/vm.c:556-558`). A page can be used from user mode only behind a table that a fork has copied
  (`PageAccess.MappedAccess`, `PageAccess.ForkAccess`); after boot no page can (`BootMap.Boot`), and behind those
  entries none ever can (`PageAccess.SupervisorStays`).
* **The block search is neither complete nor best fit** (`FreeBlocks.BestFitExact`, `BestFitCanMiss`,
  `BestFitCanWaste`).
* **The kernel heap never grows**: start plus maximum size wraps in 32 bits, so every expansion is refused
  (`HeapModel.KernelHeapNeverGrows`), except by a request that wraps itself, which then gets an address
  outside the heap (`KernelHeapWraps`). `HeapModel.AllocExact` gives the exact condition for a sound answer.
* **The fragment in front of an aligned block is dropped**: it is inserted under an address still in the
  tree. Its bytes are lost to the heap but never handed out twice (`HeapModel.AllocSafe`).
* **Freeing a frame can mark a partly used block free**, since the merge loop looks at single frames
  instead of blocks (`Buddy.MergeCanBeWrong`; exactly when it is right: `Buddy.MergeExact`). Single frames,
  the only size the kernel uses, stay correct (`Buddy.FrameRuns`).
* **A key without a character corrupts the line.** Ctrl, Shift, Alt and the function keys send code 0
  (`kernel/arch/i386/kb.c:39-130`, `kernel/arch/i386/kb.c:144-145`), which the shell stores but the screen
  does not show. The screen then spells `Shown`, not the buffer (`LineEditor.ShownSpelled`,
  `LineEditor.StoredNulNotSpelled`), and since a backspace is guarded only by the length of the buffer
  (`kernel/arch/i386/sh.c:62`), enough of both walk the cursor off the first cell and write before the frame
  buffer, from every screen (`LineEditor.LineCanStray`). Exactly when is `LineEditor.AstrayExactly`. It does
  not happen on a line with at most as many such keys as cells before the cursor, if they are no more than
  1665 (`LineEditor.FewBlanksStay`); the second bound is needed, since a scroll takes the cursor up a row.
* **A read whose end wraps past 2^32 is not cut off at the end of the file**
  (`Initrd.DeliveredExactly`).
* **The process queue does not go round**: the last process stays (`ProcQueue.EndsAtTheLast`).

## Model

| member | source | states |
|---|---|---|
| `AvlTree.RotateRightKeeps` | kernel/arch/i386/vm.c:678-687 | A right rotation keeps the set of blocks, the search order and the bound "1 <= stored height <= real height". |
| `AvlTree.RotateLeftKeeps` | kernel/arch/i386/vm.c:692-701 | The same for a left rotation. |
| `AvlTree.InsertRefinesMap` | kernel/arch/i386/vm.c:708-753 | For any stored heights of at least 1, insertion is adding one entry to the map from base to size; a duplicate base or a zero size changes nothing; order and height bounds survive. |
| `AvlTree.InsertIds` | kernel/arch/i386/vm.c:708-753 | Insertion uses exactly the old nodes and, for a new base, one new node; none occurs twice. |
| `AvlTree.InsertPresent` | kernel/arch/i386/vm.c:721-722 | Inserting a base already present never uses the new node's storage, whether it faults or not. |
| `AvlTree.DeleteRefinesMap` | kernel/arch/i386/vm.c:769-823 | Deletion, including the two-child case, is removing one entry from the map; order and height bounds survive. |
| `AvlTree.DeleteIds` | kernel/arch/i386/vm.c:769-823 | Deletion introduces no node and keeps the nodes distinct. |
| `AvlTree.LeftmostIsLeast` | kernel/arch/i386/vm.c:758-763 | The leftmost node has the least base of the tree and no left child. |
| `AvlTree.CarveRefinesMap` | kernel/arch/i386/vm.c:255-257 | Overwriting base and size of a node in place, with a base that keeps its rank, replaces one map entry and keeps order and heights. |
| `AvlTree.LevelNeverFaults` | kernel/arch/i386/vm.c:729-750 | The case the design intends: on a tree whose stored heights are honest and balanced, insertion follows no null pointer, and the stored height does not drop. The exact condition for all trees is `FaultPath.FaultsExactly`. |
| `FaultPath.FaultsExactly` | kernel/arch/i386/vm.c:729-750 | For every ordered tree with stored heights of at least 1, an insertion follows a null pointer if and only if some node on its search path has a child off the path that is empty on the inner side and stores at least two more than the path side will after the insertion. |
| `FaultPath.SturdyNeverFaults` | kernel/arch/i386/vm.c:729-750 | A test of the search path alone, made before the call: if no child off the path is empty on the inner side and claims height 3, the insertion does not fault. |
| `FaultPath.FewBlocksNeverFault` | kernel/arch/i386/vm.c:729-750 | A tree of at most three blocks never faults, however far its stored heights are below the real ones. |
| `FaultPath.HighClaimsFault` | kernel/arch/i386/vm.c:729-750 | Stored heights above the real ones, which no operation produces, would fault on a tree of two blocks. |
| `FaultPath.FourBlocksCanFault` | kernel/arch/i386/vm.c:746-750 | The bound is tight: a tree of four blocks, with stored heights equal to the real ones, on which an insertion faults. |
| `AvlTree.HeightsCanBeTooLow` | kernel/arch/i386/vm.c:685-685 | A deletion after which a root of real height 3 stores 2. |
| `AvlBalance.SettlesFromLeft` | kernel/arch/i386/vm.c:725-752 | One step back up of an insertion that came from the left, over a balanced tree with real stored heights: it meets no null pointer and leaves a balanced tree with its real height at the root, at most one higher. |
| `AvlBalance.SettlesFromRight` | kernel/arch/i386/vm.c:725-752 | The same from the right. |
| `AvlBalance.InsertBalanced` | kernel/arch/i386/vm.c:708-753 | What the rotations are for: into a tree whose stored heights are the real ones and where no node's children differ by more than one, every insertion completes and leaves a tree where no node's children differ by more than one in real height, at most one higher. |
| `AvlBalance.DeleteStepBalanced` | kernel/arch/i386/vm.c:800-822 | One step back up of a deletion, over balanced children with real stored heights that differ by two at most: the result is balanced and as high as before or one lower. |
| `AvlBalance.DeletionCanUnbalance` | kernel/arch/i386/vm.c:769-823 | A balanced tree of thirteen blocks with real stored heights on which a whole deletion leaves a node with children that differ by two. |
| `InsertionFault.ElevenInsertionsFault` | kernel/arch/i386/vm.c:735-750 | A run of ten insertions from the empty tree, each without a fault, after which the eleventh makes a rotation follow a null pointer; the tree part of `HeapFault.AllowedRunStops`. |
| `HeapFault.AllowedRunStops` | kernel/arch/i386/vm.c:209-342 | From initialisation, a run of 45 allocations and 11 frees of live pointers, all allowed, that ends by following a null pointer in the last free and not before. |
| `HeapFault.SpreadInserts` | kernel/arch/i386/vm.c:708-753 | Insertion and its faults depend only on the order of the addresses and the stored heights: relabelling keys as addresses of heap blocks commutes with both. |
| `HeapFault.FewBlocksAlloc` | kernel/arch/i386/vm.c:209-272 | With at most three free blocks no allocation faults. |
| `HeapFault.FewBlocksFree` | kernel/arch/i386/vm.c:278-342 | With at most three free blocks no free faults, whatever is freed. |
| `HeapFault.FewBlocksRun` | kernel/arch/i386/vm.c:209-342 | Over every allowed run that keeps to three free blocks the heap is safe and never stops. |
| `AvlNodes.RotateNodeRight` | kernel/arch/i386/vm.c:678-687 | The four pointer and height updates turn the linked nodes of a tree into the linked nodes of the rotated tree; on nodes linked in any way, what is a tree afterwards was, with the rotation taken back, one before. |
| `AvlNodes.RotateNodeLeft` | kernel/arch/i386/vm.c:692-701 | The mirror image. |
| `AvlNodes.SettleNodeInsert` | kernel/arch/i386/vm.c:725-752 | The four rotation cases on linked nodes agree with the value model, and a null pointer is followed if and only if `SettleFaults` holds; on nodes linked in any way, whatever is a tree afterwards comes from a tree before. |
| `AvlNodes.SettleNodeDelete` | kernel/arch/i386/vm.c:800-822 | The four cases after a deletion agree with the value model; no rotation can meet a null pointer, whatever the stored heights. |
| `AvlNodes.AvlInsert` | kernel/arch/i386/vm.c:708-753 | The recursive insertion on linked nodes yields exactly `Insert`, faults if and only if `InsertFaults` holds, allocates only for a new base, and changes no existing node's block. |
| `AvlNodes.FindMinBase` | kernel/arch/i386/vm.c:758-763 | The loop ends at the node with the least base. |
| `AvlNodes.AvlDelete` | kernel/arch/i386/vm.c:769-823 | The recursive deletion yields exactly `Delete`; every node except a two-child node that held the key still reads its old block, and an unlinked node keeps its block and links. |
| `AvlNodes.DeleteHere` | kernel/arch/i386/vm.c:792-795 | The two-child case: the successor's data is copied up, its old node is removed from the right subtree, and no other node's data changes. |
| `FreeBlocks.BestFitExact` | kernel/arch/i386/vm.c:829-845 | The search answers null exactly when every right-spine node is too small, and otherwise the earliest smallest element of the chain made by repeating that search in left subtrees. |
| `FreeBlocks.BestFitFits` | kernel/arch/i386/vm.c:829-845 | What it answers is a block of the tree that is large enough. |
| `FreeBlocks.BestFitCanMiss` | kernel/arch/i386/vm.c:835-844 | A tree with a large enough block on which the search answers null. |
| `FreeBlocks.BestFitCanWaste` | kernel/arch/i386/vm.c:835-844 | A tree on which the search passes over a smaller fitting block. |
| `FreeBlocks.PathDetectsOverlap` | kernel/arch/i386/vm.c:288-303 | On an ordered disjoint tree, the single search path meets an overlap if and only if some block anywhere overlaps the range. |
| `FreeBlocks.PathFindsNeighbours` | kernel/arch/i386/vm.c:305-324 | The path finds the left and the right adjacent block whenever they exist, and nothing else. |
| `HeapModel.MergeExact` | kernel/arch/i386/vm.c:326-341 | Removing both neighbours and inserting the merged block adds exactly the freed range to the free addresses and keeps blocks non-empty, in bounds and not touching. |
| `HeapModel.FreeExact` | kernel/arch/i386/vm.c:278-342 | A free in bounds is refused if and only if it overlaps a free block; otherwise, short of a fault, the free addresses grow by exactly the range and the heap's other fields stay. |
| `HeapModel.CarvedRefines` | kernel/arch/i386/vm.c:255-263 | Shrinking the chosen node, and deleting it when nothing is left, removes exactly the carved bytes from the map. |
| `HeapModel.AllocSafe` | kernel/arch/i386/vm.c:209-272 | A request that does not wrap gets a block inside the heap, disjoint from all live blocks with their headers and from all free blocks, on a page boundary if asked for, on every path; a null answer changes nothing; no address becomes free. |
| `HeapModel.AllocServes` | kernel/arch/i386/vm.c:209-272 | For every request that does not wrap, without naming the search: if no node of the right spine is large enough for the request at its worst alignment, the block lies past the old end and the heap is moved up to the next page boundary, or the answer is null where the limit forbids it; otherwise the answer is never null, and the block starts at the first admissible address of the earliest smallest element of the chain of fits, whose front alone is taken from the free addresses. |
| `HeapModel.FreePointerExact` | kernel/arch/i386/vm.c:398-414 | Freeing a pointer exactly: a pointer that is null or has no valid header in front of it changes nothing; otherwise the range its header names is refused for its bounds, refused for overlapping a free block, or added to the free addresses. |
| `HeapModel.AllocExact` | kernel/arch/i386/vm.c:209-272 | For every 32-bit size, a non-null answer lies inside the heap if and only if the arithmetic of the request does not wrap. |
| `HeapModel.FreeLive` | kernel/arch/i386/vm.c:398-414 | Freeing a live pointer is never refused: its size is read back from the header, exactly its block and header become free, and everything else live stays valid. |
| `HeapModel.SecondFreeRefused` | kernel/arch/i386/vm.c:288-303 | Freeing the same pointer again at once is reported as an overlap. |
| `HeapModel.StepSafe` | kernel/arch/i386/vm.c:209-342 | Every allocation, every free of a live pointer and every client write outside live headers keeps the heap invariant. |
| `HeapModel.RunSafe` | kernel/arch/i386/vm.c:209-342 | So does every run, as long as no insertion has faulted. |
| `HeapModel.InitialSafe` | kernel/arch/i386/vm.c:125-143 | Initialisation establishes the invariant, and the free addresses are exactly those between the two rounded bounds. |
| `HeapModel.HeapRuns` | kernel/arch/i386/vm.c:125-342 | Over every run from initialisation, live blocks with headers and free blocks are pairwise disjoint and inside the heap, and free blocks are non-empty and never touch. |
| `HeapModel.KernelHeapNeverGrows` | kernel/include/kernel/vm.h:30-32 | With the kernel's constants, a request the tree cannot serve is answered with null and changes nothing. |
| `HeapModel.KernelHeapWraps` | kernel/arch/i386/vm.c:149-170 | A request that wraps on the kernel heap passes the limit check and gets an address past the old end, while the recorded end drops below the start. |
| `HeapArea.FindBestFit` | kernel/arch/i386/vm.c:829-845 | The search on linked nodes returns the node that holds the block `BestFit` chooses. |
| `HeapArea.CarveNode` | kernel/arch/i386/vm.c:255-257 | Two assignments to one node turn the linked tree into the carved tree. |
| `HeapArea.FindClash` | kernel/arch/i386/vm.c:288-303 | The overlap loop on linked nodes answers as the search path does. |
| `HeapArea.FindNeighbours` | kernel/arch/i386/vm.c:305-324 | The neighbour loop on linked nodes returns pointers to the two neighbours. |
| `HeapArea.HeapArea.constructor` | kernel/arch/i386/vm.c:125-143 | The new heap is `Initial`: one free block, or none for an empty range. |
| `HeapArea.HeapArea.Detach` | kernel/arch/i386/vm.c:305-337 | Both neighbours leave the tree and are counted with their own bases and sizes, though the right one is read through a pointer taken before the left one's deletion moved data. |
| `HeapArea.HeapArea.HeapFree` | kernel/arch/i386/vm.c:278-342 | Freeing a range on linked nodes gives exactly the heap of `FreeRange`, though the right neighbour is read through a pointer taken before the left one's deletion moved data; each refusal happens exactly on its condition and changes nothing. |
| `HeapArea.HeapArea.Ifree` | kernel/arch/i386/vm.c:398-414 | Freeing a pointer does what `FreePointer` says; it is refused exactly for the reasons of the code, and refusals change nothing. |
| `HeapArea.HeapArea.ExpandHeap` | kernel/arch/i386/vm.c:149-170 | The end moves, or the refusal is reported, as `Expand` says in 32-bit arithmetic. |
| `HeapArea.HeapArea.HeapAlloc` | kernel/arch/i386/vm.c:209-272 | Allocation on linked nodes, aligned or not, from a block or by expansion, gives exactly the answer and the heap of `Alloc`, and short of a fault serves the request from the block that `HeapModel.AllocServes` describes. |
| `Unwinding.AlongIsInsert` | kernel/arch/i386/vm.c:717-720 | Where the path still turns as it did, coming back up it is no different from searching and inserting, faults included. |
| `Unwinding.AlongRow` | kernel/arch/i386/vm.c:717-752 | Read from left to right, the finished tree is the resumed one with the new block between what lies left of the path and what lies right of it, whatever the order of the blocks. |
| `Unwinding.AlongExact` | kernel/arch/i386/vm.c:717-752 | The finished tree is in order with exactly the blocks of a given tree plus the new one if and only if the resumed tree reads like that tree and no turn of the path has become a wrong one. |
| `Drawing.PartialTraceable` | kernel/arch/i386/vm.c:255-257 | A draw that leaves part of its block leaves the search path where it was. |
| `Drawing.UsedUpOffPath` | kernel/arch/i386/vm.c:261-262 | After the deletion of a used-up node off the path the insertion finds its way back, if no node of the path turns, or one does where the two paths part and the path goes on to the inner grandchild. |
| `Drawing.TurnUndoneRight` | kernel/arch/i386/vm.c:804-805 | Such a right turn is undone: strung together again the two nodes and the subtrees beside them read as after the turn, and the path turns as before it. |
| `Drawing.TurnUndoneLeft` | kernel/arch/i386/vm.c:807-808 | The mirror image. |
| `Drawing.UsedUpOnPath` | kernel/arch/i386/vm.c:261-262 | A used-up node on the path with at most one child is strung in again with no bytes, so the draw is never traceable. |
| `Drawing.SuccessorOnPath` | kernel/arch/i386/vm.c:792-795 | With two children, and its successor on the path too, the successor's block is strung in twice, so the draw is never traceable. |
| `Drawing.DrawingExact` | kernel/arch/i386/vm.c:647-753 | Whatever block the storage comes from and whatever its deletion turns: the finished tree is in order and holds exactly the old blocks less the drawn bytes plus the new block if and only if the draw is traceable. |
| `Drawing.TraceableSearches` | kernel/arch/i386/vm.c:717-752 | A traceable draw works on different nodes in order, and faults and ends exactly as a plain insertion into them. |
| `Drawing.DrawingInsertExact` | kernel/arch/i386/vm.c:647-753 | After a traceable draw the free addresses are the old ones less the drawn bytes plus the new block, in blocks that do not overlap. |
| `NodeStorage.TakeStorage` | kernel/arch/i386/vm.c:647-657 | Creating a node shrinks the chosen block of the same tree in place, or deletes its node when it is used up; the nodes then hold the drawn tree, and an unlinked node keeps its block and its links. |
| `NodeStorage.Link` | kernel/arch/i386/vm.c:717-752 | Linking a child and settling is the step of the value model on a tree; on nodes linked in any way, if a tree hangs there afterwards then the child and its sibling were trees before, apart from each other and from the node. |
| `NodeStorage.Climb` | kernel/arch/i386/vm.c:717-752 | One node back up: if the nodes strung together from it on are all different, they hold `Along` over them; if not, no tree hangs from it any more. |
| `NodeStorage.InsertDrawing` | kernel/arch/i386/vm.c:708-753 | The same for the whole recursion below any node of the path, for every draw, with the faults exactly those of the value model. |
| `NodeStorage.InsertIntoOwnTree` | kernel/arch/i386/vm.c:341-341 | From the root, for every draw: the nodes end up as `Along` over the resumed tree or follow a null pointer exactly when `AlongFaults` says so, or, if a node occurs twice in it, form no tree at all. |
| `KernelHeap.FreeDrawingSafe` | kernel/arch/i386/vm.c:398-414 | Freeing a live pointer on the kernel's heap is never refused; when it completes, exactly its block has become free less the new node's storage, which is a new live block, and everything else live stays valid. |
| `KernelHeap.FreeCompletesExactly` | kernel/arch/i386/vm.c:278-342 | It leaves the right heap if and only if, with both neighbours thought away, some right-spine block has 28 bytes, the draw is traceable, and no node on the resumed path tips. |
| `KernelHeap.SpoiltIsBroken` | kernel/arch/i386/vm.c:278-342 | Any other tree it leaves is out of order, or its blocks are not the old ones less the storage plus the freed range. |
| `KernelHeap.UsedUpIsBroken` | kernel/arch/i386/vm.c:261-262 | With a used-up node on the path the free never completes; a tree it leaves has a block of no bytes, or, when the successor is on the path too, one block twice. |
| `KernelHeap.RequestCompletesExactly` | kernel/arch/i386/vm.c:209-272 | An allocation completes if and only if no node on the path of the dropped alignment fragment tips. |
| `KernelRuns.NoStorageRun` | kernel/arch/i386/vm.c:647-657 | Two allowed calls from initialisation after which a node is written through a null pointer. |
| `KernelRuns.UsedUpRun` | kernel/arch/i386/vm.c:255-263 | Three allowed calls from initialisation after which the root has no bytes, the freed block hangs to its left, and every search of the tree answers null. |
| `KernelRuns.DoubledRun` | kernel/arch/i386/vm.c:792-795 | Nine allowed calls from initialisation after which the same 1,048,412 bytes are in the tree twice, and the next two requests are given the same address. |
| `KernelRuns.TurnRuns` | kernel/arch/i386/vm.c:804-805 | Two runs of thirteen allowed calls whose last free turns the root by its own draw: in one the turn is undone and the heap is right, in the other the nodes are no tree any more. |
| `KernelHeap.PutDrawing` | kernel/arch/i386/vm.c:647-753 | On linked nodes, for every draw: the insertion that draws from its own heap fails for want of storage, faults, leaves exactly the tree of the value model and the node's header, or leaves nodes that form no tree, exactly when the value model says so. |
| `KernelHeap.FreeOnOwnHeap` | kernel/arch/i386/vm.c:278-342 | The whole free on linked nodes, neighbours out first and storage drawn in the middle of the insertion, for every heap in order: it gives exactly the heap of `FreeDrawing`, right or spoilt, or nodes that form no tree; refusals change nothing. |
| `KernelHeap.KernelStepSafe` | kernel/arch/i386/vm.c:209-342 | Every call of a client that completes keeps the invariant of the kernel's heap, with the storage of all tree nodes among the live blocks and no two nodes of the tree the same. |
| `KernelHeap.KernelRunSafe` | kernel/arch/i386/vm.c:209-342 | Over every run whose calls all complete, blocks handed out, the storage of all nodes ever created and free blocks are pairwise disjoint and inside the heap, and no node's storage is handed out again. |
| `KernelHeap.StaysUpExactly` | kernel/arch/i386/vm.c:209-342 | A run comes to its end with the right heap after every call if and only if each call looks, on the heap before it, as the two exact conditions say. |
| `KernelHeap.RoomyStaysUp` | kernel/arch/i386/vm.c:209-342 | A run that keeps to three free blocks and room for a node at every free never goes down, and is safe. |
| `KernelHeap.KernelHeapRuns` | kernel/include/kernel/vm.h:30-32 | From initialisation with the kernel's own bounds: safe as long as all calls complete, and coming to its end with the right heap exactly if they do. |
| `Buddy.BitMeansFree` | kernel/arch/i386/pm.c:103-115 | While each level follows the buddy rule, bit i of level j is set if and only if all 2^j frames of that block are free. |
| `Buddy.AllFreeCoherent` | kernel/arch/i386/pm.c:103-115 | Initialisation establishes the rule with every frame free. |
| `Buddy.PmallocExact` | kernel/arch/i386/pm.c:157-184 | An allocation of any order answers -1 exactly when no aligned block of that order is free, otherwise hands out the lowest one, takes exactly its frames and keeps the rule. |
| `Buddy.AllocationRuns` | kernel/arch/i386/pm.c:157-184 | Over every run of mixed orders, blocks handed out are aligned and pairwise disjoint and the free frames are exactly the others. |
| `Buddy.FreeSetsOneFrame` | kernel/arch/i386/pm.c:189-205 | Whatever the merge loop does, level 0 gains exactly the freed frame. |
| `Buddy.FrameStepTracks` | kernel/arch/i386/pm.c:157-205 | A frame handed out was not held and is the lowest such; a refusal means all are held; a freed frame is available again. |
| `Buddy.FrameRuns` | kernel/arch/i386/pm.c:157-205 | Over every run of single-frame allocations and frees, level 0 is exactly the set of frames not held. |
| `Buddy.MergeExact` | kernel/arch/i386/pm.c:189-205 | Freeing a frame keeps the buddy rule if and only if, on each level, the single frames the loop looks at are free exactly when the whole block is. |
| `Buddy.MergeCanBeWrong` | kernel/arch/i386/pm.c:201-201 | After taking frames 0 to 3 and freeing 1 and then 0, the order-2 block 0 is marked free while 2 and 3 are held. |
| `FrameAllocator.GetOrder` | kernel/arch/i386/pm.c:145-152 | The loop finds the least order whose blocks hold the request. |
| `FrameAllocator.OrderUnique` | kernel/arch/i386/pm.c:145-152 | Only one order is least in that sense. |
| `FrameAllocator.SmallRequest` | kernel/arch/i386/pm.c:145-152 | Requests of at most 128 frames have an order the allocator knows, and requests of up to one frame have order 0. |
| `FrameAllocator.FrameAllocator.constructor` | kernel/arch/i386/pm.c:103-115 | The packed bitmaps, all bits set, show every frame free on every level. |
| `FrameAllocator.FrameAllocator.IsBitSet` | kernel/arch/i386/pm.c:137-140 | Reading one bit of a packed byte reads that bit of the level. |
| `FrameAllocator.FrameAllocator.SetBit` | kernel/arch/i386/pm.c:120-123 | Setting a bit changes that bit of that level and nothing else. |
| `FrameAllocator.FrameAllocator.ClearBit` | kernel/arch/i386/pm.c:128-131 | Clearing a bit changes that bit of that level and nothing else. |
| `FrameAllocator.FrameAllocator.PmallocOrder` | kernel/arch/i386/pm.c:157-184 | The search and the marking loop with its early exit give exactly the levels and the answer of `Pmalloc`. |
| `FrameAllocator.FrameAllocator.PmallocBytes` | kernel/arch/i386/pm.c:157-184 | A request in bytes is served at its least order. |
| `FrameAllocator.FrameAllocator.PfreeFrame` | kernel/arch/i386/pm.c:189-205 | Freeing one frame gives exactly the levels of `Pfree`. |
| `Paging.AllocFrameOk` | kernel/arch/i386/vm.c:613-628 | A page with a frame keeps its entry; one without gets the lowest free frame, which no table refers to, is present, writable if and only if asked for, open to user mode if and only if not for the kernel, not accessed and not dirty; all other entries keep theirs; frame 0 counts as none, as in the code. |
| `Paging.AllocFrameExact` | kernel/arch/i386/vm.c:613-628 | The same for every state, whether or not the frames are in order, and no frame is given if and only if all are held. |
| `Paging.FreeFrameOk` | kernel/arch/i386/vm.c:632-641 | Freeing a page drops only that entry's frame, which is free again, leaves of its flags only the writable one, and keeps frames unique. |
| `Paging.CloneTableOk` | kernel/arch/i386/vm.c:444-479 | A cloned table has its own frames with equal contents and flags, and nothing that existed changed. |
| `Paging.CloneDirOk` | kernel/arch/i386/vm.c:484-525 | A cloned directory keeps the invariant; each slot is empty, the kernel's own table under the same directory entry, or a new faithful copy under an entry that is present, writable and open to user mode. |
| `Paging.StepOk` | kernel/arch/i386/vm.c:444-641 | Table creation, mapping, unmapping, stores and forks keep: no non-zero frame behind two entries, every frame in use is held, only kernel tables are shared; a slot once filled never changes. |
| `Paging.StepIsolates` | kernel/arch/i386/vm.c:444-641 | No step on another address space changes what a private page shows. |
| `Paging.RunOk` | kernel/arch/i386/vm.c:444-641 | The invariant holds over every run. |
| `Paging.RunIsolates` | kernel/arch/i386/vm.c:444-641 | Over every run on other address spaces, forks included, a private page shows what it showed. |
| `Paging.RunShares` | kernel/arch/i386/vm.c:505-512 | A slot linked to the kernel's table stays linked for ever and always shows what the kernel sees. |
| `Paging.ForkShowsSame` | kernel/arch/i386/vm.c:484-525 | A fork shows on every page exactly what its parent shows. |
| `Paging.ForkIsolates` | kernel/arch/i386/vm.c:484-525 | Whatever parent and others do after a fork, the child's own pages keep the contents they had at the fork. |
| `Paging.StepAgrees` | kernel/arch/i386/vm.c:484-563 | Every step keeps the entries the processor reads and the table pointers the kernel reads naming the same tables. |
| `Paging.RunAgrees` | kernel/arch/i386/vm.c:484-563 | So does every run. |
| `Paging.AllocatedMeans` | kernel/arch/i386/vm.c:623-627 | The 32-bit word written for a frame, read bit by bit, is the entry the model gives the page. |
| `Paging.FreedMeans` | kernel/arch/i386/vm.c:640-640 | Masking any word with the writable flag leaves the entry the model leaves on a free. |
| `Paging.FlaggedMeans` | kernel/arch/i386/vm.c:462-472 | Setting five flags of a word one after the other copies exactly those flags and keeps the frame. |
| `PageAccess.GivenWord` | kernel/arch/i386/vm.c:623-627 | The entry of a page that is given a frame is, for some frame number of twenty bits, the word the code writes. |
| `PageAccess.TakenWord` | kernel/arch/i386/vm.c:632-641 | The entry of a page that loses its frame is its old word masked with the writable flag. |
| `PageAccess.CopiedWord` | kernel/arch/i386/vm.c:459-472 | The entry of a copied page is the word written for its new frame with the flags of the original word set one by one. |
| `PageAccess.MappedAccess` | kernel/arch/i386/vm.c:532-628 | A page newly mapped for user mode can be read, or written, there if and only if its table was there before, behind a directory entry that user mode may use. |
| `PageAccess.ForkAccess` | kernel/arch/i386/vm.c:484-525 | In a fork user mode can read every page with a frame behind a copied table, and write it if and only if the parent's entry was writable; behind a linked table it can do what it could in the parent. |
| `PageAccess.StepKeepsEntries` | kernel/arch/i386/vm.c:444-641 | No step changes the directory entry of a slot that has a table. |
| `PageAccess.SupervisorStays` | kernel/arch/i386/vm.c:444-641 | Over every run the pages behind a directory entry that is not for user mode stay out of its reach. |
| `VmManager.AllocatorAnswers` | kernel/arch/i386/vm.c:613-628 | The frame allocator's answer for one frame is the lowest frame not held, which is what the paging model assumes. |
| `VmManager.VmManager.AllocPage` | kernel/arch/i386/vm.c:613-628 | Giving a page a frame through the bitmap allocator does what `AllocFrame` says, and so writes the entry that `Paging.AllocFrameExact` describes; without frames nothing changes. |
| `VmManager.VmManager.FreePage` | kernel/arch/i386/vm.c:632-641 | Freeing a page through the bitmap allocator does what `FreeFrame` says. |
| `VmManager.VmManager.GetPage` | kernel/arch/i386/vm.c:532-563 | The two-level lookup finds the table and index of an address, which with the place in the page make up the address, creating the table only when asked and missing. |
| `VmManager.VmManager.ClonePageTable` | kernel/arch/i386/vm.c:444-479 | The loop over 1024 entries gives exactly `CloneTable`. |
| `VmManager.VmManager.ClonePageDirectory` | kernel/arch/i386/vm.c:484-525 | The loop over 1024 slots gives exactly `CloneDir` and keeps the paging invariant. |
| `BootMap.NewKernelDirectory` | kernel/arch/i386/vm.c:56-61 | The kernel's directory is placed on a page boundary, maps nothing and agrees with its entries. |
| `BootMap.MapHeap` | kernel/arch/i386/vm.c:63-76 | The loop over the heap's pages creates their tables, without frames, and keeps the state the mapping loops start from. |
| `BootMap.FindPage` | kernel/arch/i386/vm.c:532-563 | A lookup that places a missing table disturbs no mapping, and each table created pays for the rise of the placement address. |
| `BootMap.TableCreated` | kernel/arch/i386/vm.c:540-556 | A table created at the placement address during the loop disturbs no mapping made so far. |
| `BootMap.PageMapped` | kernel/arch/i386/vm.c:613-628 | At boot, page m gets frame m, for user mode to read and not to write by its own entry, no other entry changes, and only a machine of at most m frames refuses. |
| `BootMap.MapOne` | kernel/arch/i386/vm.c:80-86 | One round maps the next page to the frame of its number, readable and not writable by its entry, leaves all pages beyond blank, or fails exactly when there is no such frame. |
| `BootMap.MapKernel` | kernel/arch/i386/vm.c:78-93 | Both loops terminate although table creation raises the bound; below the final address, beyond both ends, page k maps to frame k with an entry that lets user mode read and not write, all later pages are blank, and exactly those frames are in use; the paging invariant holds and the processor's view agrees; enough memory suffices for success. |
| `BootMap.HeapStep` | kernel/arch/i386/vm.c:96-98 | The next page of the heap keeps the frame it has from the identity mapping or gets the one that follows all frames in use, with the same protection, and everything else stays. |
| `BootMap.MapHeapFrames` | kernel/arch/i386/vm.c:96-98 | The loop gives the heap's pages the frames that follow, in order, and fails only when they run out. |
| `BootMap.OnlyMapped` | kernel/arch/i386/vm.c:52-98 | Every entry of every table but those of the pages mapped is not present and holds the writable flag alone. |
| `BootMap.Boot` | kernel/arch/i386/vm.c:52-98 | From an empty machine: directory, heap tables and the three mapping loops together establish the paging invariant and the agreement with the processor's view, and succeed if memory suffices. Page k below the final address has frame k, the heap's other pages the frames that follow, the entry of each lets user mode read and not write, and every other entry of every table is not present. As the directory entries are the supervisor's, user mode can read no page at all. |
| `BootMap.BootedAgrees` | kernel/arch/i386/vm.c:78-93 | What boot leaves is a starting point for `Paging.RunAgrees` under every later view of physical memory that leaves the tables in place. |
| `BootMap.BootedInv` | kernel/arch/i386/vm.c:78-93 | Every state the mapping loops leave satisfies the invariant that the run theorems of `Paging` start from. |
| `Terminal.PutCharShows` | kernel/arch/i386/tty.c:103-140 | One character on the screen is one character in the unbounded wrapped log, across wraps and scrolls. |
| `Terminal.WriteShows` | kernel/arch/i386/tty.c:103-140 | Whatever is written, the cursor stays on the screen and the 80x25 characters are the last 25 rows of the log of everything written. |
| `Terminal.ClearedShows` | kernel/arch/i386/tty.c:23-39 | A cleared screen shows the empty log. |
| `TerminalDriver.Tty.PutEntryAt` | kernel/arch/i386/tty.c:69-73 | One cell of the frame buffer changes its character. |
| `TerminalDriver.Tty.DeleteLastLine` | kernel/arch/i386/tty.c:77-83 | The loop blanks the last row and nothing else. |
| `TerminalDriver.Tty.Scroll` | kernel/arch/i386/tty.c:87-93 | The loop copies one row onto the row above and nothing else. |
| `TerminalDriver.Tty.PutChar` | kernel/arch/i386/tty.c:103-140 | The imperative routine with its copying loops does what `Terminal.PutChar` says. |
| `TerminalDriver.Tty.Backspace` | kernel/arch/i386/tty.c:174-180 | Backspace on the frame buffer does what `Terminal.Backspace` says, except in the first cell, and exactly there its blank goes to the cell before the buffer. |
| `TerminalDriver.BackAgain` | kernel/arch/i386/tty.c:160-180 | Stepping back and writing a blank brings the cursor back to where it was, so a backspace blanks the cell before the cursor and never scrolls. |
| `LineEditor.ShownSpelled` | kernel/arch/i386/sh.c:44-76 | From any screen, after any keys at all, unless a backspace has met the first cell, the cells before the cursor spell what the keys show, across wraps, scrolls and backspaces. |
| `LineEditor.ShownAtMost` | kernel/arch/i386/sh.c:60-74 | The screen shows no more characters than the buffer holds, and exactly its text if as many. |
| `LineEditor.EditedSpells` | kernel/arch/i386/sh.c:44-76 | With keys that have a character, no backspace ever meets the first cell and the cells before the cursor spell exactly the buffer's text. |
| `LineEditor.EditedBounded` | kernel/arch/i386/sh.c:44-76 | That text never has more than 255 characters. |
| `LineEditor.PlainKeys` | kernel/arch/i386/sh.c:69-74 | Keys without a backspace are stored as they come, the first 255 of them. |
| `LineEditor.BackspaceUndoes` | kernel/arch/i386/sh.c:60-67 | A backspace takes back the key before it, unless that one found the buffer full; then it takes the last one stored. |
| `LineEditor.KeySpellsExactly` | kernel/arch/i386/sh.c:59-74 | Screen and buffer stay in step on a key if and only if the key has a character or the buffer is full. |
| `LineEditor.StoredNulNotSpelled` | kernel/arch/i386/sh.c:70-74 | After any keys, while the buffer holds a code 0 the screen does not spell it. |
| `LineEditor.WrittenNoNul` | kernel/arch/i386/tty.c:103-140 | Whatever is written to a cleared screen, no cell holds code 0. |
| `LineEditor.AstrayExactly` | kernel/arch/i386/sh.c:60-74 | For any keys, a backspace meets the first cell if and only if counting cursor cell and buffer length along the keys does. |
| `LineEditor.FewBlanksStay` | kernel/arch/i386/sh.c:60-74 | It does not happen with at most as many keys without a character as cells before the cursor, and at most 1665 of them. |
| `LineEditor.LineCanStray` | kernel/arch/i386/sh.c:62-66 | From every screen, one more pair of such a key and a backspace than cells before the cursor leads to a write before the frame buffer. |
| `LineEditor.Shell.WaitForCommand` | kernel/arch/i386/sh.c:44-76 | For every sequence of keys the loop leaves buffer and screen exactly as the fold of the keys, terminates the buffer on Enter, and strays on exactly the first backspace that meets the first cell. |
| `Keyboard.InterruptKeeps` | kernel/arch/i386/kb.c:29-36 | An interrupt at any point keeps the ring invariant; the key's character is accepted behind those waiting while fewer than 127 do, and dropped otherwise; the slot being read is not written. |
| `Keyboard.AccessKeeps` | kernel/arch/i386/kb.c:159-168 | So does each single access of the reader. |
| `Keyboard.EveryInterleaving` | kernel/arch/i386/kb.c:15-36 | Over every interleaving, the characters accepted are exactly those of the keys that came while fewer than 127 waited, in order; the characters returned are a prefix of them and all others, at most 127, wait in the ring. |
| `Keyboard.NothingLost` | kernel/arch/i386/kb.c:20-36 | If the keys of a run and the characters waiting before it come to at most 127, no key is lost. |
| `Keyboard.ReaderProgresses` | kernel/arch/i386/kb.c:159-168 | Left alone while something waits, the reader returns the next character due. |
| `Keyboard.InitialInv` | kernel/arch/i386/kb.c:15-25 | The empty ring satisfies the invariant. |
| `Initrd.HeaderRoundTrip` | initrd_builder.c:43-101 | A file header written as bytes and read back is the same header. |
| `Initrd.LoadedHeaders` | kernel/arch/i386/initrd.c:93-175 | Loading a built image recovers the count and every header, with offsets turned into addresses. |
| `Initrd.LoadedNode` | kernel/arch/i386/initrd.c:142-171 | Each node of a loaded image has the name, kind, size and parent of its entry, and a number that leads reads back to its own header. |
| `Initrd.FindTrip` | kernel/arch/i386/initrd.c:76-88 | In a loaded image every entry is found under its name, from the root unless it is called "dev". |
| `Initrd.LookupExact` | kernel/arch/i386/initrd.c:76-88 | A name means the device directory if and only if it is "dev" asked of the root, otherwise node i if and only if i is the first of that name, and nothing if and only if no node has it. |
| `Initrd.RoundTrip` | kernel/arch/i386/initrd.c:30-41 | A read from any offset whose end does not wrap into the file delivers exactly its original bytes, cut off at its end. |
| `Initrd.DeliveredExactly` | kernel/arch/i386/initrd.c:30-41 | For all 32-bit offsets and sizes, a read stays within the file if and only if its end does not wrap around to inside it. |
| `Initrd.PiecesRoundTrip` | kernel/arch/i386/initrd.c:30-41 | Any consecutive reads of which none has an end that wraps into the file concatenate to the original bytes. |
| `InitrdFiles.Builder.ProcessEntry` | initrd_builder.c:43-101 | Each call of the walk's callback appends one entry to table and data. |
| `InitrdFiles.Builder.Finish` | initrd_builder.c:103-130 | The finished file is exactly the image of the entries seen. |
| `InitrdFiles.Reader.constructor` | kernel/arch/i386/initrd.c:93-175 | The loop that rewrites the header table yields exactly `Loaded`. |
| `InitrdFiles.Reader.FindDir` | kernel/arch/i386/initrd.c:76-88 | The search loop answers as `Lookup`: the first entry of that name, with "dev" taken from the root. |
| `InitrdFiles.Reader.ReadFile` | kernel/arch/i386/initrd.c:30-41 | A read follows the node's number to its header and copies exactly the bytes of `ReadAt`; past the end it delivers nothing; it would overrun memory only if its end wraps into the file. |
| `Printf.DigitsDecode` | libc/stdio/printf.c:19-48 | The digits of a number in any base up to 16 denote that number. |
| `Printf.DigitsFit` | libc/stdio/printf.c:19-48 | A number below 10^(k+1) has at most k+1 digits in any base from 10 to 16. |
| `Printf.FillDigits` | libc/stdio/printf.c:35-38 | The digit loop stores the digits in reverse and uses at most ten bytes of the buffer. |
| `Printf.PrintInt` | libc/stdio/printf.c:19-48 | The whole conversion prints the number's digits with its sign and never uses more than eleven bytes. |
| `Printf.DigitsNumeral` | libc/stdio/printf.c:35-38 | The digits of a number are 0 to 9 and A to F below the base, with no zero in front of others. |
| `Printf.OneNumeral` | libc/stdio/printf.c:35-38 | Two such numerals that denote the same number are the same. |
| `Printf.PieceExact` | libc/stdio/printf.c:84-155 | A directive prints a text if and only if the text is the right one: %d a minus sign for a negative number and the decimal numeral of its absolute value, %u the decimal numeral of the value read without a sign, %x "0x" and its hexadecimal numeral, %c and %s the argument itself. |
| `Printf.EscapedPrintsItself` | libc/stdio/printf.c:63-80 | Any text with its percent signs doubled prints as itself. |
| `Printf.AfterStretch` | libc/stdio/printf.c:63-80 | A copied stretch is exactly what the reference prints for those characters, one at a time. |
| `Printf.Print` | libc/stdio/printf.c:50-172 | For every format with matching arguments the routine terminates; if the expansion fits in an int it prints exactly that and returns its length, otherwise it returns -1. |
| `ProcQueue.Scheduler.constructor` | kernel/arch/i386/proc.c:22-40 | Initialisation makes a queue of one process, which runs. |
| `ProcQueue.Scheduler.Fork` | kernel/arch/i386/proc.c:44-95 | Fork appends the child at the end of an acyclic queue of PIDs 1, 2, 3 and so on, and returns its PID. |
| `ProcQueue.Scheduler.Switch` | kernel/arch/i386/proc.c:150-201 | A tick saves the registers and resumes the next process with what it had saved, or stays at the tail. |
| `ProcQueue.OnlyForward` | kernel/arch/i386/proc.c:150-201 | Over every run of forks and ticks the running PID never decreases and the saved state of processes left behind never changes. |
| `ProcQueue.RunExact` | kernel/arch/i386/proc.c:44-201 | A whole run by counting alone: each process left behind has saved the registers of the tick that left it, the running one and those behind it still have the registers they were forked with, in the order of the forks, and the directories are those of the forks. |
| `ProcQueue.EndsAtTheLast` | kernel/arch/i386/proc.c:159-190 | Without forks, ticks move one place each until the last process, where they stay. |

## Left out

- HeapArea.HeapArea.HeapFree: requires base + size below 2^32; the comparisons on the search path are modelled without wrap, so wrapping ranges are not covered.
- HeapArea.HeapArea.HeapAlloc: requires a request whose arithmetic does not wrap; wrapping requests are covered on the value model (`HeapModel.AllocExact`, `HeapModel.KernelHeapWraps`).
- HeapModel.AllocServes: requires a request whose arithmetic does not wrap, as above.
- HeapModel.FreePointerExact: requires a header in front of the pointer whose range does not wrap, and a pointer with room for one.
- HeapArea.HeapArea.Ifree: requires that a header found in front of the pointer describes a range that does not wrap.
- HeapModel.RunSafe: a run stops at the first fault of an insertion; what the machine does after reading through address 0 is not modelled.
- HeapModel.HeapRuns: takes tree nodes as storage outside the heap; runs of the kernel's heap, where they are inside, are `KernelHeap.KernelRunSafe`.
- KernelHeap.KernelStepSafe: says nothing of the heap a call leaves that does not complete; `KernelHeap.FreeDrawing` and `KernelHeap.FreeOnOwnHeap` give it.
- KernelHeap.KernelRunSafe: says nothing past a call that does not complete; `KernelHeap.StaysUpExactly` says which those are, and `KernelRuns.DoubledRun` what can follow.
- KernelHeap.FreeOnOwnHeap: where the nodes left are no tree, says only that, or that a null pointer was followed on the way.
- KernelHeap.PutDrawing: the same.
- NodeStorage.InsertIntoOwnTree: the same.
- NodeStorage.InsertDrawing: the same.
- NodeStorage.TakeStorage: a draw that must expand the heap is refused on the kernel's heap.
- HeapArea.HeapArea.ExpandHeap: does not give frames to the pages of the grown heap.
- Buddy.AllFreeCoherent: requires a frame count that is a multiple of 128, as the constructor does.
- Buddy.FreeSetsOneFrame: frees of single frames only.
- FrameAllocator.FrameAllocator.PfreeFrame: frees of single frames only.
- Buddy.FrameRuns: covers frees of single frames, the only size the kernel passes; frees of larger blocks are not modelled.
- FrameAllocator.FrameAllocator.constructor: requires a frame count that is a multiple of 128; for other counts the code indexes past its bitmaps.
- FrameAllocator.FrameAllocator.PmallocBytes: requires at most 128 frames; larger requests index past the levels.
- AvlBalance.DeleteStepBalanced: one step of a deletion; of whole deletions it is false (`AvlBalance.DeletionCanUnbalance`).
- BootMap.MapKernel: requires that no address wraps, as BootMap.Boot does.
- BootMap.Boot: requires that no address wraps, and claims nothing about the placement address after it is reset at line 94.
- PageAccess.MappedAccess: a page that already has a frame keeps its entry and is not covered.
- PageAccess.GivenWord: requires at most 2^20 frames, all that 32-bit addresses reach; PageAccess.CopiedWord does too.
- InitrdFiles.Reader.ReadFile: requires that the node's number and its header lead into the image, as in every image the tool builds.
- VmManager.VmManager.GetPage: takes the address of a new table as a parameter; a failed allocation of one is not modelled.
- VmManager.VmManager.ClonePageTable: takes the address of the new table as a parameter.
- VmManager.VmManager.ClonePageDirectory: takes the addresses of new tables as parameters instead of allocating them from the heap.
- LineEditor.EditedSpells: excludes key code 0, for which the property is false; `LineEditor.ShownSpelled`, `LineEditor.AstrayExactly` and `LineEditor.Shell.WaitForCommand` cover all keys.
- TerminalDriver.Tty.Backspace: in the first cell it stops at the write before the frame buffer; what that write overwrites is not modelled.
- Initrd.RoundTrip: covers up to 128 entries with distinct names of at most 63 bytes; a 129th entry, which the tool lets through, is not modelled, and the entry for the top directory must have a name of its own.
- InitrdFiles.Builder.ProcessEntry: takes the parent number as part of the entry, and at most 128 entries.
- InitrdFiles.Builder.Finish: pads the header table with zeros to its full length, as the file is when at least one byte of data was written.
- Printf.PrintInt: excludes the most negative int in the signed conversion.
- Printf.Print: excludes the most negative int under `%d`, whose negation overflows, and failures of putchar.
- Tree nodes outside `NodeStorage` and `KernelHeap` are fresh objects, not memory of the heap itself.
- Shrinking the heap (`reduce_heap`, never called).
- `print_avl_tree`, `free_avl_tree` and `frame_cleanup`: never called, or without effect.
- `initrd_readdir`, the parent numbers of RAM-disk entries and the name of the top directory's entry.
- Character colours, the hardware cursor and keyboard scan codes.
- Shell history (unreachable, because the location is zeroed first) and the command handlers.
- `move_stack`, `get_eip`, control registers and TLB flushes.
- Interrupt and descriptor tables, the serial port, the timer and `pm_initialize`: device plumbing.
- The copy of a physical page is one assignment of the whole frame.
