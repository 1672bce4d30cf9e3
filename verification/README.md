# Handles, tagged words and a source checker

A Dafny model of the parts of V8's embedder interface where most of the state and most of
the arithmetic is, with proofs about every run, every word or every text.

| files | what they model |
|---|---|
| `Basics` | options and sequences without repetition |
| `HandleScopes`, `HandleScopeSlots`, `HandleScopeSteps`, `HandleScopeRefinement`, `HandleScopeNesting`, `HandleScopeRoots`, `HandleScopeStorage`, `HandleScopeExamples`, `HandleScopeCode` | local handles: the bump-pointer allocator over chained blocks, with plain, escapable, sealed and persistent scopes, and the collector's visit of the roots |
| `GlobalNodes`, `GlobalHandleSpace` | the node space behind global handles: free list, used-block list, counters, young list, and the collector's pass over weak nodes |
| `HandleOwnership`, `HandleOwnershipProofs`, `HandleOwnershipEffects`, `HandleOwnershipCode` | who owns which cell: construction, reset, copy, move and destruction of `Global`, `Persistent` and `TracedReference`, weak phantom cells and the collector |
| `TracedYoungReset` | the young-generation pass over traced nodes, and the doubly threaded list it walks |
| `Words`, `TagRanges`, `PointerTables`, `SmiTagging`, `ReturnValues`, `SandboxBounds`, `NodeBits` | tagged words: type-tag ranges, pointer-table entries, Smis, pointer compression, the callback's return slot, sandboxed pointers and sizes, node flag bytes |
| `BraceCheck` | the presubmit check for multi-line `if` statements without braces |

Code that changes fields in place is modelled by classes and loops (`HandleScopeCode`,
`GlobalHandleSpace`, `HandleOwnershipCode`, `TracedYoungReset`, `ReturnValues`, `NodeBits`,
`BraceCheck`); each method is proved equal to a function of the old state, and the
theorems about whole runs are about those functions. What the system allocator returns, which
objects are dead, which of them are young and what a regular expression matches are inputs:
the theorems hold for all of them.

## Where the code does not do what is expected of it

Each of these is stated as an if-and-only-if whose condition can be tested beforehand, and
has a lemma at an input where it fails.

- `HandleScopeRoots.RootsAreLiveHandles`: the root visit cuts a block off at the mark of a
  persistent scope if the mark lies in the block *or at its start*. A block whose memory begins
  exactly where the marked block ends is then skipped although its handles are live.
  `HandleScopeExamples.AdjacentBlockMissed` is a run from the empty isolate that gets there.
- `HandleScopeRoots.SealIsSafeIff`: sealing a block that holds no handle yet makes the next
  scope's close drop that block, because the test for the block that holds the limit is strict
  at the block's start. In `HandleScopeExamples.SealDropsLiveBlock` it drops all blocks.
- `HandleScopeRoots.NumberOfHandlesIsExact`: during a persistent scope the handle count includes
  the slots left over in the block that was current before;
  `HandleScopeExamples.HandlesOvercounted` reports 1022 for one live handle.
- `TracedYoungReset.PassIsFullIff`: freeing the last node of a block unlinks the block under the
  loop's iterator, and the loop ends there, although the list's own comment asks for another
  form of removal in a loop (src/base/doubly-threaded-list.h:62-63). `SecondBlockMissed` is the
  smallest case.
- `HandleOwnershipProofs.CopyGivesValue`: copying a handle to itself empties it, although the
  comment promises a new cell with the contents of the other
  (include/v8-persistent-handle.h:472-475). `SelfCopyLosesValue` is an instance.
- `HandleOwnershipProofs.CollectIsSafeIff`: a phantom cell that outlives a handle without reset
  in its destructor is cleared through an address at which another handle, or none, may live by
  then. In `LostHandleEmptiesAnother` a run empties a strong global that way.
- `PointerTables.ReadersAgreeIff`: the inlined CppHeap reader and the table's reader differ on a
  range written the wrong way round, for instance on the entry of `ReadersDisagree`.
- `NodeBits.FlagKeepsStateIff` and `NodeBits.StateKeepsFlagsIff`: which shifts and states keep
  the fields of the flag byte apart.

## Model

| member | source | states |
|---|---|---|
| HandleScopeRefinement.StepRefines | include/v8-local-handle.h:190-241 | every operation of the allocator keeps its invariant, fails exactly when a plain stack of lists of values refuses the same operation, and otherwise changes the lists in the same way |
| HandleScopeRefinement.RunRefines | include/v8-local-handle.h:190-241 | every run of opening, creating, escaping, sealing, detaching and closing is a run of the stack of lists |
| HandleScopeRefinement.ReachableRefines | include/v8-local-handle.h:203-241 | the same from null pointers on, and the live handles sit in pairwise distinct slots of the block list below `next` |
| HandleScopeRefinement.ClosedIsBelow | include/v8-local-handle.h:203-225 | what the destructor computes is the configuration seen at the opening, and no block is invented |
| HandleScopeRefinement.ClosedFrees | src/api/api.h:483-511 | the blocks given back to the system are those dropped, without the one that becomes the spare, and a spare that is replaced; every other block is still owned |
| HandleScopeRefinement.CreateRefines | src/handles/handles.cc:175-211 | a handle is created if and only if a scope is open above the seal, and it is appended to the innermost list alone |
| HandleScopeRefinement.EscapeStep | src/api/api.cc:831-837 | an escape overwrites the last value of the enclosing scope and nothing else |
| HandleScopeRefinement.CloseAndEscapeRefines | src/handles/handles-inl.h:255-274 | close-and-escape drops the scope's values, appends one to the parent and leaves an empty scope |
| HandleScopeRefinement.OpenSealStep | src/api/api.cc:839-846 | sealing opens an empty frame over an unchanged configuration |
| HandleScopeRefinement.CloseSealStep | src/api/api.cc:848-854 | unsealing restores the configuration below the seal |
| HandleScopeRefinement.DetachSplits | src/api/api.cc:12268-12300 | detaching leaves the block list of the opening and hands over exactly the scope's blocks, the partly filled one last |
| HandleScopeRefinement.DetachSameBlocks | src/api/api.cc:12274-12290 | the blocks handed over are those from the scope's first block on |
| HandleScopeRefinement.ClosePersistentStep | src/handles/persistent-handles.cc:158-173 | ending a persistent scope restores the configuration of its opening and keeps the invariant |
| HandleScopeNesting.ScopeRestores | include/v8-local-handle.h:190-225 | for every well-nested run inside a scope, with any number of extensions, closing it restores `next`, `limit`, `level` and the block list of its opening |
| HandleScopeNesting.RunInside | include/v8-local-handle.h:190-225 | whatever runs inside a scope, its saved fields and the configuration beneath it stand |
| HandleScopeNesting.OuterValuesKept | include/v8-local-handle.h:203-241 | no inner creation, closing or extension changes the value of a handle of an outer scope, and an escape changes only the slot it is for |
| HandleScopeNesting.EscapeSurvives | include/v8-local-handle.h:831-850 | for every inner run without a second escape from the same scope, an escaped value is still readable after the scope closes, in a slot of the enclosing scope |
| HandleScopeNesting.LimitTestIsExact | include/v8-local-handle.h:215-219 | at the close, the limit differs from the saved one if and only if the scope itself created a handle with no room left |
| HandleScopeRoots.LiveExactly | src/api/api.cc:12201-12253 | the live handles are the slots below `next` without the gap that a persistent scope leaves |
| HandleScopeRoots.VisitDistinct | src/api/api.cc:12201-12253 | the collector is told of no slot twice |
| HandleScopeRoots.RootsAreLiveHandles | src/api/api.cc:12201-12253 | the collector visits exactly the live handles, if and only if no block before the last one starts at the persistent scope's mark |
| HandleScopeExamples.AdjacentBlockMissed | src/api/api.cc:12201-12253 | a run from the empty isolate after which a live handle is not visited |
| HandleScopeRoots.NumberOfHandlesIsExact | src/handles/handles.cc:166-173 | the reported count is the number of live handles plus the size of the gap, and so exact if and only if there is no gap |
| HandleScopeExamples.HandlesOvercounted | src/handles/handles.cc:166-173 | a run after which 1022 handles are reported and one is live |
| HandleScopeRoots.DetachedHandles | src/api/api.cc:12268-12300 | the detached container covers the handles of the persistent scope and no other slot |
| HandleScopeStorage.CreateTakes | src/handles/handles.cc:175-211 | a handle goes to `next` while the last block has room, also behind a seal, and no block changes hands; otherwise to the first slot of the spare, or of a new block only if there is no spare |
| HandleScopeStorage.OpenPersistentTakes | src/handles/persistent-handles.cc:139-156 | a persistent scope begins with a block of its own, the spare if there is one, all of it available |
| HandleScopeStorage.DetachedAreForeign | src/api/api.cc:12268-12300 | every handle of the persistent scope lies in a block that was handed over, and no block is lost |
| HandleScopeStorage.BlocksConserved | src/api/api.h:475-511 | for every step: the blocks owned afterwards are those owned before, without the freed ones and with the one block that a step without room and without a spare obtains |
| HandleScopeRoots.DetachedKeptByRuns | src/handles/persistent-handles.cc:139-173 | over every later run of the isolate the detached handles keep their values |
| HandleScopeRoots.SealIsSafeIff | src/api/api.h:483-511 | every scope opened on a seal gives the configuration back after every inner run, if and only if the sealed block held a handle |
| HandleScopeExamples.SealDropsLiveBlock | src/api/api.h:483-511 | a run to a state in which a seal, a scope, one handle and a close drop the block of a live handle |
| HandleScopeCode.Isolate.constructor | include/v8-local-handle.h:190-241 | a new isolate has null pointers and no blocks |
| HandleScopeCode.Isolate.GetSpareOrNewBlock | src/api/api.h:475-481 | the spare block is returned if there is one and a new one otherwise, and no spare is left |
| HandleScopeCode.Isolate.DeleteExtensions | src/api/api.h:483-511 | the loop leaves the longest prefix of the block list whose last block holds the limit, and the block popped last as the spare |
| HandleScopeCode.Isolate.Extend | src/handles/handles.cc:175-211 | fails exactly under a seal or without a scope; otherwise goes on in the last block, or appends the spare if there is one and a new block if not, all of it available |
| HandleScopeCode.Isolate.CreateHandle | include/v8-local-handle.h:227-241 | the slot at `next`, or the one an extension found, holds the value and `next` is behind it; a failed extension changes nothing |
| HandleScopeCode.Isolate.CloseScope | src/handles/handles-inl.h:225-253 | `next` and level go back, and blocks are given up only if the limit differs from the saved one |
| HandleScopeCode.Isolate.CountHandles | src/handles/handles.cc:166-173 | computes the count whose exactness is characterised |
| HandleScopeCode.Isolate.IterateThis | src/api/api.cc:12201-12253 | the loop reports the slots in the order that the root theorem is about |
| HandleScopeCode.Isolate.DetachPersistent | src/api/api.cc:12268-12300 | the loop and swap move the blocks as the detach theorem says |
| HandleScopeCode.HandleScope.constructor | include/v8-local-handle.h:190-201 | saves `next` and `limit` and raises the level |
| HandleScopeCode.HandleScope.Destroy | include/v8-local-handle.h:203-225 | closes the scope with the saved fields |
| HandleScopeCode.HandleScope.CloseAndEscape | src/handles/handles-inl.h:255-274 | close, one handle in the parent, open again |
| HandleScopeCode.EscapableHandleScope.constructor | src/api/api.cc:824-829 | the escape slot is made in the enclosing scope before the scope opens |
| HandleScopeCode.EscapableHandleScope.Escape | include/v8-local-handle.h:841-850 | an empty handle escapes as empty; any other is copied to the slot, which is returned |
| HandleScopeCode.SealHandleScope.constructor | src/api/api.cc:839-846 | the limit drops to `next` and the seal is at the current level |
| HandleScopeCode.SealHandleScope.Destroy | src/api/api.cc:848-854 | limit and sealed level are put back |
| HandleScopeCode.PersistentHandlesScope.constructor | src/handles/persistent-handles.cc:139-156 | a fresh block is current and the old `next` is remembered |
| HandleScopeCode.PersistentHandlesScope.Detach | src/handles/persistent-handles.cc:164-173 | hands over the blocks and restores all that the scope saved, with the level still raised |
| HandleScopeCode.PersistentHandlesScope.Destroy | src/handles/persistent-handles.cc:158-162 | lowers the level |
| GlobalNodes.TakenOk | src/handles/global-handles.cc:240-257 | taking the first free node keeps free list, counters, used-block list and young list consistent |
| GlobalNodes.ReleasedOk | src/handles/global-handles.cc:278-288 | releasing a node keeps them consistent |
| GlobalNodes.WithBlockOk | src/handles/global-handles.cc:240-269 | a new block's nodes become the free list in order, and no cell changes |
| GlobalNodes.ListAdded | src/handles/global-handles.cc:129-138 | the links after adding are those of the list with the block in front |
| GlobalNodes.ListRemoved | src/handles/global-handles.cc:146-153 | the links after removal are those of the list without the block, at any position |
| GlobalNodes.CountsUpdate | src/handles/global-handles.cc:123-144 | one node changes its own block's counter and the total, and no other counter |
| GlobalNodes.CountIsCells | src/handles/global-handles.cc:123-144 | the total is the number of nodes in use |
| GlobalNodes.TakenCovered | src/handles/global-handles.cc:625-632 | a creation leaves no node with a young object off the young list |
| GlobalNodes.PromotedCovered | src/handles/global-handles.cc:780-803 | moving and promoting objects leaves none off the list either |
| GlobalNodes.YoungListExact | src/handles/global-handles.cc:780-803 | after the upkeep the young list holds every node in use with a young object once, and nothing else |
| GlobalNodes.KeptYoungInOrder | src/handles/global-handles.cc:780-803 | the nodes that are kept stay in their order |
| GlobalHandleSpace.ReleaseUnderIterator | src/handles/global-handles.cc:146-153 | unlinking the block under the iterator leaves the rest of the list reachable from it |
| GlobalHandleSpace.WalkEnds | src/handles/global-handles.cc:713-718 | blocks that are not on the used list hold only free nodes, so a walk over the list misses nothing |
| GlobalHandleSpace.DeadOwnersEmptied | src/handles/global-handles.cc:561-567 | null stores through the back-pointers empty exactly the handles that name a dead phantom node; every other handle names the node it named |
| GlobalHandleSpace.GlobalHandles.AddBlock | src/handles/global-handles.cc:260-269 | the downward loop threads the block's nodes in ascending order |
| GlobalHandleSpace.GlobalHandles.IncreaseUsage | src/handles/global-handles.cc:124-138 | counts a node and links the block when it is the first |
| GlobalHandleSpace.GlobalHandles.DecreaseUsage | src/handles/global-handles.cc:141-153 | uncounts a node and unlinks the block when it was the last |
| GlobalHandleSpace.GlobalHandles.Create | src/handles/global-handles.cc:625-632 | the new cell is none in use, holds the value, is tracked if young, and every other cell is as before |
| GlobalHandleSpace.GlobalHandles.Release | src/handles/global-handles.cc:278-288 | exactly the one cell disappears, its node is zapped and becomes the first free one, and no young root is lost from the young list |
| GlobalHandleSpace.GlobalHandles.CompactYoung | src/handles/global-handles.cc:780-803 | the in-place compaction keeps the still-young nodes in order and clears the flag of the others |
| GlobalHandleSpace.GlobalHandles.UpdateListOfYoungNodes | src/handles/global-handles.cc:818-820 | afterwards the young list is exactly the set of young roots |
| GlobalHandleSpace.GlobalHandles.ProcessNode | src/handles/global-handles.cc:693-711 | a dead weak node is freed and its handle set to null, or it is queued for its callback; any other node is untouched, and the iterator stays valid |
| GlobalHandleSpace.GlobalHandles.IterateWeakRootsForPhantomHandles | src/handles/global-handles.cc:713-718 | although nodes are freed and blocks unlinked on the way, every dead weak node is processed once and reported once, no other node changes, and exactly the owners of dead phantom nodes are empty afterwards |
| HandleOwnershipProofs.StepKeeps | include/v8-persistent-handle.h:428-556 | every construction, reset, copy, move, destruction, weakening and collection keeps: no two handles share a cell, every non-empty handle's cell is allocated, a phantom cell points back at its owner, and created cells are disposed and live ones |
| HandleOwnershipProofs.Conservation | include/v8-persistent-handle.h:307-309 | over every mixed run, cells created minus cells disposed are the non-empty handles plus the cells given up without being freed |
| HandleOwnershipProofs.GlobalsFreeEverything | include/v8-persistent-handle.h:428-484 | with globals and with persistents that reset in their destructor only, live cells equal non-empty handles, and no handle left means no cell left |
| HandleOwnershipProofs.ResetKeeps | include/v8-persistent-handle.h:452-457 | a reset empties its handle, touches no other and keeps the invariant |
| HandleOwnershipProofs.CollectEmptiesOwner | src/handles/global-handles.cc:561-567 | clearing a phantom cell empties the handle that owns it now, wherever it was moved, and no other |
| HandleOwnershipProofs.CollectIsSafeIff | include/v8-persistent-handle.h:307-309 | clearing a phantom cell writes to a handle that exists and empties no other than its owner, if and only if it still has its handle or an empty handle lives at the address it remembers |
| HandleOwnershipProofs.LostHandleEmptiesAnother | include/v8-persistent-handle.h:307-309 | in the state that the run of `PlaceTaken` reaches, clearing an abandoned cell empties a strong global |
| HandleOwnershipProofs.PlaceTaken | include/v8-persistent-handle.h:307-309 | a run from the empty world to that state |
| HandleOwnershipProofs.CopyGivesValue | include/v8-persistent-handle.h:437-443 | a copy has the value of its source, if and only if the two are different handles or the source is empty |
| HandleOwnershipProofs.SelfCopyLosesValue | include/v8-persistent-handle.h:478-484 | a handle with a value that is empty after being reset from itself |
| HandleOwnershipProofs.MoveGivesValue | include/v8-persistent-handle.h:543-556 | a move, also to itself, leaves the source's value in the target; a different source is empty |
| HandleOwnershipProofs.MoveFreesOldCell | include/v8-persistent-handle.h:543-556 | a move frees the target's old cell, and no other, and makes none |
| HandleOwnershipProofs.MoveConstructKeeps | include/v8-persistent-handle.h:535-541 | move construction keeps the ownership invariant, back-pointers included |
| HandleOwnershipProofs.TracedCopyGivesValue | include/v8-traced-handle.h:407-416 | a traced copy, also to itself and while marking or sweeping runs, gives the value and leaves the source its own |
| HandleOwnershipProofs.TracedMoveGivesValue | include/v8-traced-handle.h:398-405 | a traced move, also to itself, hands the value over |
| HandleOwnershipEffects.ResetFrees | include/v8-persistent-handle.h:452-457 | resetting a global or persistent frees exactly its cell and empties exactly that handle; an empty one changes nothing |
| HandleOwnershipEffects.TracedResetFreesIff | src/handles/traced-handles.cc:167-196 | a traced reset frees the cell if and only if neither marking nor sweeping runs; during marking the cell is nulled, during sweeping left as it is |
| HandleOwnershipEffects.DestroyFrees | include/v8-persistent-handle.h:307-309 | the destructor frees the cell of a global and of a persistent with the reset flag, and gives up the unchanged cell of any other handle |
| HandleOwnershipEffects.ResetToLocalGivesValue | include/v8-persistent-handle.h:465-470 | a handle reset to a local reads the local's value from a new strong cell, and is empty for an empty local |
| HandleOwnershipEffects.ConstructGivesValue | include/v8-persistent-handle.h:428-433 | a new handle reads the local it was made from, in a new strong cell |
| HandleOwnershipEffects.CopyMakesCell | include/v8-persistent-handle.h:437-443 | a copy from another non-empty handle is one new strong cell with its value; no other cell changes |
| HandleOwnershipEffects.MoveConstructHandsOver | include/v8-persistent-handle.h:535-541 | the new handle has the value, the cell and the back-pointer of the source, the source is empty, and no other handle or cell changes |
| HandleOwnershipEffects.MoveAssignHandsOver | include/v8-persistent-handle.h:543-556 | after the target's cell is freed the source's cell and back-pointer pass to it, and nothing else changes |
| HandleOwnershipEffects.TracedMoveHandsOver | include/v8-traced-handle.h:398-405 | likewise for a traced move |
| HandleOwnershipEffects.OthersUntouched | include/v8-persistent-handle.h:428-556 | no step changes a handle, or the cell of a handle, that it is not about |
| HandleOwnershipEffects.SameHandles | include/v8-persistent-handle.h:428-556 | handles come and go with construction and destruction only |
| HandleOwnershipEffects.CollectFrees | src/handles/global-handles.cc:561-567 | the collector frees the phantom cell and writes null to the remembered handle only; another cell which that handle named is given up |
| HandleOwnershipEffects.WeakHandleIsCleared | src/handles/global-handles.cc:514-521 | a handle made weak without a callback is emptied and its cell freed when the collector finds it dead |
| HandleOwnershipEffects.CallbackKeepsHandle | src/handles/global-handles.cc:693-711 | a handle made weak with a callback keeps its cell, which waits for the callback |
| HandleOwnershipEffects.ClearWeakIsStrong | src/handles/global-handles.cc:523-529 | clearing weakness makes the cell strong and changes nothing else |
| HandleOwnershipEffects.StrongHandleStays | src/handles/global-handles.cc:523-529 | over every run not applied to it, a strong handle that no abandoned phantom cell remembers is not emptied and keeps its value, whatever is collected |
| HandleOwnershipEffects.SweepFrees | src/handles/traced-handles.cc:123-147 | sweeping frees exactly the given-up cell |
| HandleOwnershipEffects.PhaseOnly | src/handles/traced-handles.cc:249-257 | a change of the collector's phase changes no handle and no cell |
| HandleOwnershipCode.HandleStore.Clear | include/v8-traced-handle.h:309-315 | frees the cell in the table of its kind and empties the handle; an empty handle changes nothing |
| HandleOwnershipCode.HandleStore.DisposeTracedReference | src/handles/traced-handles.cc:167-196 | a traced cell is freed, nulled or left according to the collector's phase |
| HandleOwnershipCode.HandleStore.ResetToLocalHandle | include/v8-persistent-handle.h:465-470 | reset, and a new cell unless the local is empty |
| HandleOwnershipCode.HandleStore.CopyHandle | include/v8-persistent-handle.h:437-443 | the source is read after the target was reset |
| HandleOwnershipCode.HandleStore.MoveGlobalReference | src/handles/global-handles.cc:651-660 | only a phantom cell learns the new address |
| HandleOwnershipCode.HandleStore.MoveConstructor | include/v8-persistent-handle.h:535-541 | the new handle takes the cell and its back-pointer over and the source is empty; `MoveConstructHandsOver` says what that is |
| HandleOwnershipCode.HandleStore.MoveAssignment | include/v8-persistent-handle.h:543-556 | the old cell is freed, the source's cell and back-pointer are handed over; assignment to itself changes nothing |
| HandleOwnershipCode.HandleStore.TracedMoveAssignment | include/v8-traced-handle.h:398-405 | the old cell is given up and the source's cell handed over; assignment to itself changes nothing |
| HandleOwnershipCode.HandleStore.TracedCopyAssignment | include/v8-traced-handle.h:407-416 | the old cell is given up and a new one holds the source's value; assignment to itself changes nothing |
| HandleOwnershipCode.HandleStore.DestroyHandle | include/v8-persistent-handle.h:307-309 | the cell of a global or of a persistent with the reset flag is freed, that of any other handle given up, and the handle is gone |
| TracedYoungReset.RemovedOk | src/base/doubly-threaded-list.h:64-76 | removal needs no head: the links are those of the list without the element, whose own links are cleared |
| TracedYoungReset.PassIsFullIff | src/handles/traced-handles.cc:350-369 | every young node is reset, that is freed if unmarked and kept without its mark otherwise, if and only if no block whose nodes in use are all young and unmarked stands before one with a young node |
| TracedYoungReset.PassReaches | src/handles/traced-handles.cc:350-369 | the pass resets the blocks up to and including the first one that it empties, and changes no other block |
| TracedYoungReset.BlockResetIff | src/handles/traced-handles.cc:350-369 | resetting node by node, given by in-use, young and mark bits alone, is what the pass does to a block |
| TracedYoungReset.SecondPassFreesAll | src/handles/traced-handles.cc:350-369 | two full passes without marking in between free every node that was young and change no other |
| TracedYoungReset.EmptiedIff | src/handles/traced-handles.cc:123-147 | such a block is one that the pass takes from some nodes in use to none |
| TracedYoungReset.SecondBlockMissed | src/handles/traced-handles.cc:350-369 | two blocks with one dead node each, of which the second stays |
| TracedYoungReset.TracedHandles.RemoveYoung | src/base/doubly-threaded-list.h:64-76 | the block is unlinked from wherever it stands, and a block in no list changes nothing |
| TracedYoungReset.TracedHandles.FreeNode | src/handles/traced-handles.cc:123-147 | frees the node and takes the block off the young list when it was the last one in use |
| TracedYoungReset.TracedHandles.ResetYoungDeadNodes | src/handles/traced-handles.cc:350-369 | the loop with the list's own iterator computes the pass that the theorems are about, and so resets every young node exactly under that condition |
| TagRanges.ContainsIsBetween | include/v8-internal.h:545-551 | the single unsigned comparison is the two-sided test, and on a reversed range its complement |
| TagRanges.ContainsRangeIsInclusion | include/v8-internal.h:553-555 | on well-formed ranges it is inclusion of the accepted tags |
| TagRanges.SubtreeIsBlock | include/v8-internal.h:453-510 | in every forest every subtree's tags are contiguous |
| TagRanges.RangeExistsIff | include/v8-internal.h:453-510 | for every numbering of every forest, with unused tags or without: some range check decides subtyping of a type, if and only if the tags of its subtypes are an interval among the used tags |
| TagRanges.RangeCheckIsSubtyping | include/v8-internal.h:453-555 | for every forest, every numbering in the order of its blocks and every range that begins and ends in the gaps around a block, the range check accepts exactly the subtypes |
| TagRanges.DocumentedNumberings | include/v8-sandbox.h:34-47 | this numbering and the one with a type before its subtypes are instances |
| PointerTables.EveryWordIsEntry | include/v8-internal.h:323-373 | every 64-bit word is an external-pointer entry |
| PointerTables.EntryIsUnique | include/v8-internal.h:323-373 | and only one |
| PointerTables.ReadExternalIsExact | include/v8-internal.h:1508-1567 | for every word and range: the pointer if the range accepts the tag, null otherwise, marked or not |
| PointerTables.TagExternalIsEntry | src/sandbox/tagged-payload.h:38-41 | packing pointer, tag and mark bit overlaps no bits |
| PointerTables.ExternalRoundTrip | include/v8-internal.h:1508-1567 | packing and reading gives the pointer if and only if the range contains the tag |
| PointerTables.EveryHandleInTable | include/v8-internal.h:323-356 | every 32-bit handle leads to an entry inside the table's reservation, on every platform |
| PointerTables.EveryWordIsCppHeapEntry | src/sandbox/cppheap-pointer-table.h:93-104 | every 64-bit word is a CppHeap entry |
| PointerTables.UntagIsExact | src/sandbox/tagged-payload.h:43-57 | the table's reader gives the 48-bit pointer if and only if the range accepts the tag |
| PointerTables.ReadCppHeapIsExact | include/v8-sandbox.h:98-159 | the inlined shifted comparison does so too, whatever the mark bit |
| PointerTables.ReadersAgreeIff | include/v8-sandbox.h:98-159 | the two readers agree on every entry if and only if the range is well formed |
| PointerTables.NullEntryIsNull | include/v8-sandbox.h:130-141 | the null entry reads as null under every range |
| PointerTables.CppHeapRoundTrip | include/v8-sandbox.h:98-159 | packing and reading gives the pointer if and only if the range contains the tag |
| SmiTagging.ValidIsInRange | include/v8-internal.h:97-162 | the wrapped-around check is the plain range test, for every build and every signed or unsigned type |
| SmiTagging.SmiRoundTrip | include/v8-internal.h:84-170 | decoding undoes encoding on every value in range |
| SmiTagging.RoundTripIffValid | include/v8-internal.h:1300-1308 | encoding and decoding is the identity exactly where the check accepts |
| SmiTagging.SmiInjective | include/v8-internal.h:1280-1293 | different values have different encodings |
| SmiTagging.EncodedWord | include/v8-internal.h:1280-1293 | the whole encoded word, read as signed, is the integer moved up by the shift: the sign fills the upper half |
| SmiTagging.TryRoundTrip | include/v8-internal.h:1300-1307 | a value of any type is encoded exactly when it is in range, and then reads back |
| SmiTagging.SmiIsNoHeapObject | include/v8-internal.h:1272-1274 | no encoded integer has the heap-object tag |
| SmiTagging.TagsAreLowBits | include/v8-internal.h:1272-1274 | a heap object ends in the bits 01 and a Smi in 0 |
| ReturnValues.DecompressIsInverseIff | include/v8-internal.h:1570-1582 | a compressed value comes back whole if and only if it shares the 4 GB cage |
| ReturnValues.DecompressHalves | include/v8-internal.h:1570-1582 | the upper half is the cage's, the lower half the value's |
| ReturnValues.StoredSmi | include/v8-function-callback.h:362-373 | a Smi survives the store whatever word was in the slot |
| ReturnValues.RoundIsNearest | include/v8-function-callback.h:464-472 | the conversion to double goes to a nearest multiple of the spacing |
| ReturnValues.TiesToEven | include/v8-function-callback.h:464-472 | an integer halfway between two doubles goes to the one with the even significand |
| ReturnValues.DoubleIsExactIff | include/v8-function-callback.h:464-472 | an integer is converted exactly if and only if it has a 53-bit significand, and so up to 2^53 |
| ReturnValues.DoubleIsNear | include/v8-function-callback.h:464-472 | from 2^53 on the result is within one part in 2^53 of the integer |
| ReturnValues.QuantumSpacing | include/v8-function-callback.h:464-472 | the spacing is that of numbers with 53 bits |
| ReturnValues.Heap.NewNumber | src/heap/factory-base-inl.h:50-57 | the word stands for the number, as a Smi or as a heap number |
| ReturnValues.ReturnValue.SetInternal | include/v8-function-callback.h:362-373 | with static roots only the lower half of the slot changes; otherwise the slot is the value |
| ReturnValues.ReturnValue.SetInt16 | include/v8-function-callback.h:444-452 | the slot denotes every 16-bit integer it was given |
| ReturnValues.ReturnValue.SetInt32 | include/v8-function-callback.h:454-462 | the slot denotes every 32-bit integer it was given, boxed or not |
| ReturnValues.ReturnValue.SetInt64 | include/v8-function-callback.h:464-472 | the slot denotes the nearest double, which is the 64-bit integer itself if and only if that has a 53-bit significand |
| SandboxBounds.EveryWordPointsInside | src/sandbox/sandboxed-pointer-inl.h:18-30 | every stored word decodes to a pointer into the sandbox |
| SandboxBounds.PointerRoundTrip | src/sandbox/sandboxed-pointer-inl.h:18-45 | what is written is read back |
| SandboxBounds.WordRoundTrip | src/sandbox/sandboxed-pointer-inl.h:18-45 | what is read and written back is the stored word without the bits the shift drops |
| SandboxBounds.BoundedSizeRoundTrip | src/sandbox/bounded-size-inl.h:18-35 | a size is read back if and only if it is within the limit |
| SandboxBounds.EveryWordIsBounded | src/sandbox/bounded-size-inl.h:18-25 | every stored word is a size within the limit |
| SandboxBounds.ElementAddressOfStored | include/v8-internal.h:290-297 | with a pointer and offset that were stored, the address is theirs plus the scaled index |
| SandboxBounds.AccessStaysGuarded | include/v8-internal.h:290-297 | whatever is stored, an element of at most 8 bytes at a 32-bit index lies in the sandbox or its guard region |
| SandboxBounds.GuardIsNeeded | include/v8-internal.h:290-297 | the guard region is as small as it can be up to two bytes: the last stored pointer, offset and index reach that far |
| SandboxBounds.AccessStaysTrailing | include/v8-internal.h:302-315 | at an index up to the largest buffer size it lies within the trailing 288 GB |
| NodeBits.RunRefines | include/v8-internal.h:1368-1387 | any three bytes after any run of flag, state and class-id updates hold the record of independent fields that the same run makes of what is read from them before, and weakness depends on the state alone |
| NodeBits.ReadsLastWrite | include/v8-internal.h:1368-1387 | from any bytes, after any run, reading a field of the bytes gives the value last written to it |
| NodeBits.UnwrittenKept | include/v8-internal.h:1368-1387 | and a field that was never written reads as before |
| NodeBits.UpdateRefines | include/v8-persistent-handle.h:519-533 | one update of the bytes is one update of the record |
| NodeBits.FlagKeepsStateIff | include/v8-internal.h:1373-1377 | a flag update keeps every state if and only if the flag lies above the state |
| NodeBits.StateKeepsFlagsIff | include/v8-internal.h:1384-1387 | a state update keeps every flag if and only if the state has two bits |
| NodeBits.FlagBitIsShift | include/v8-internal.h:1368-1377 | a flag's mask is 1 moved up by its shift, a bit that no other flag has |
| NodeBits.ClassIdBytes | include/v8-persistent-handle.h:519-533 | the two bytes are the low and the high half of the class id |
| NodeBits.Cell.UpdateNodeFlag | include/v8-internal.h:1373-1377 | the store in memory is that update and touches no other byte |
| NodeBits.Cell.UpdateNodeState | include/v8-internal.h:1384-1387 | likewise for the state |
| NodeBits.Cell.SetWrapperClassId | include/v8-persistent-handle.h:519-525 | likewise for the class id |
| BraceCheck.Clean | PRESUBMIT.py:493-505 | exactly the matched characters change, to a space or, where they are one, a newline |
| BraceCheck.BlankedKeepsLines | PRESUBMIT.py:538-539 | every position is on the same line of the cleaned text and of the original |
| BraceCheck.LineCountsNewlines | PRESUBMIT.py:538-539 | the line number is one more than the number of newlines before the position |
| BraceCheck.NestedIsBalanced | PRESUBMIT.py:512-521 | well-nested text has balance zero and no prefix below zero |
| BraceCheck.BalancedIsNested | PRESUBMIT.py:512-521 | and conversely |
| BraceCheck.MatchParenthesis | PRESUBMIT.py:512-521 | the loop finds the one position that closes the parenthesis around well-nested text, or -1 if and only if there is none |
| BraceCheck.ClosesIsFirstZero | PRESUBMIT.py:514-521 | that position is where the running balance first returns to zero |
| BraceCheck.GapEndIsGap | PRESUBMIT.py:525-528 | what is skipped behind the condition consists of spaces, tabs, line ends and whole attributes up to their first `]]`, and none of these follows |
| BraceCheck.GapIsUnique | PRESUBMIT.py:525-528 | no other position ends the gap |
| BraceCheck.StripIsPart | PRESUBMIT.py:540-544 | stripping drops white space at both ends, all of it, and nothing else |
| BraceCheck.CheckIf | PRESUBMIT.py:510-547 | a warning, with line and statement of the original, if and only if the condition is closed, a newline is in it or in the gap behind it, the body behind the gap has no brace and one of the two lines was changed |
| BraceCheck.CheckFile | PRESUBMIT.py:501-547 | for any match sets, one warning for each `if` that is due one, in order |
| BraceCheck.StatementOnLine | PRESUBMIT.py:540-547 | the reported statement is a part of the reported line of the original, from the body on, and what is left out around it is white space |
| BraceCheck.BodyIsCode | PRESUBMIT.py:536-544 | the body starts outside every blanked comment and literal, at an unchanged character |

## Left out

- Failed internal checks (`V8_ENABLE_CHECKS`, handle zapping, MSAN marking): the model follows the release build.
- The direct-handle build (`V8_ENABLE_DIRECT_HANDLE`), in which escaping is the identity.
- Moving a `HandleScope` object, archiving and restoring handle scopes between threads, and `PersistentHandles::GetHandle`.
- HandleScopeRefinement.StepRefines: a seal is only placed where `CanSeal` holds; `SealIsSafeIff` shows that scopes inside a seal work exactly there.
- HandleScopeRefinement.RunRefines: likewise for the seals of a run; and a persistent scope's `Detach` and destructor are one step, so nothing runs between them.
- HandleScopeRefinement.ReachableRefines: likewise for the seals of a run.
- HandleScopeRefinement.OpenSealStep: likewise for the seal.
- HandleScopeCode.Isolate.IterateThis: the saved and entered contexts that are visited after the handle blocks are not modelled.
- Weak callbacks with embedder fields, second-pass callbacks, `ProcessWeakYoungObjects`, eternal handles and strong-retainer labels.
- Write barriers, mark bits and embedder root handlers in traced moves and copies, `ResetDeadNodes` and the parallel processing of young wrappers.
- HandleOwnershipProofs.CollectIsSafeIff: a store of null to an address where no handle lives counts as harmful, but what it overwrites is not modelled.
- TracedYoungReset.TracedHandles.FreeNode: the lists of usable, all and empty blocks are not modelled, only the young list that the pass walks.
- Free-list and evacuation entries of the pointer tables, table growth, sweeping and compaction, and the choice between the isolate's table and the shared one.
- Atomic and unaligned loads, `volatile` and memory order: a load gives the stored word.
- `ReturnValue` setters for handles, booleans, null, undefined and the empty string, which only choose a word to store.
- ReturnValues.Heap.NewNumber: integral numbers only, since only the integer setters are modelled.
- ReturnValues.RoundIsNearest: overflow of doubles is out of reach for 64-bit integers and not modelled.
- BraceCheck.CheckFile: the regular expressions for comments, literals and `if` are arbitrary match sets; stripping knows the ASCII white space only.
- The rest of the repository: compiler, interpreter, heap, parser, inspector and tools.
