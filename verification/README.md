# Verified model of the SWF runtime's engines

Dafny models of the self-contained engines of a C runtime for SWF movies, and
proofs about them. Each engine is modelled twice: as functions on values, about
which the main theorems are proved, and as a class whose methods change its
fields as the C code does, each proved equal to those functions on the old state.
The model follows the code as written. Where the code falls short of what it is
for, the property is stated with the exact condition under which it holds, and a
concrete case shows that the condition is needed, except for reads of no bits, whose
value C leaves open and the model too.

| part | files | source |
|---|---|---|
| scoped allocator | `Mscope*.dfy` | `base/mscope.c` |
| timeline, seeking, display list | `Timeline.dfy`, `Commands.dfy`, `Seek.dfy`, `SeekSprites.dfy`, `DisplayMerge.dfy`, `DisplayList.dfy` | `core/sprite.c` |
| bit reader and writer | `Bits.dfy`, `BitReader.dfy`, `BitWriter.dfy`, `BitRoundTrip.dfy`, `BitExchange.dfy` | `base/bitval.c`, `base/bitval.h` |
| matrix record | `Matrix.dfy`, `Records.dfy` | `base/matrix.c` |
| slabs and slab pools | `Slab.dfy`, `SlabStruct.dfy`, `SlabPool.dfy` | `base/slab.c` |
| colour transforms | `IntBits.dfy`, `Colour.dfy`, `Cxform.dfy`, `CxformRecord.dfy`, `Records.dfy` | `base/cxform.c`, `base/cxform.h` |
| generated instance names | `Names.dfy` | `core/sprite.c` |
| allocation table | `MemoryTable.dfy` | `base/memory.c` |

## Main results

- **Scoped allocator.** One invariant (`MscopeState.Inv`) holds after every history of
  calls in which scopes are left to any signature still outstanding, with survivors
  (`MscopeHistory.HistoryKeepsInv`): no byte belongs to two of the global blocks, free
  segments and the bump tail, or to two local blocks; local blocks tile the used part
  of the local arenas; every arena ever obtained is in exactly one place. Ownership is
  counted byte by byte (`GlobalCover`), so an allocation is shown to lose nothing but,
  when it retires an arena, fewer than 16 bytes. What a call returns starts a live
  block of the size asked for: a global one for good, a local one, unmoved and with
  its bytes, through every history that does not leave its scope
  (`MscopeAnswers.GlobalAnswerLives`, `LocalAnswerLives`).
- **Leaving a scope.** Survivors keep their contents in live blocks; different
  survivors share no byte, and those out of released arenas none with the parent's
  blocks, even where a released arena is reused as a copy target amid the loop. Since
  `base/mscope.c:202` compares with an `avail` that `base/mscope.c:213` has not
  rewound yet, this holds exactly when no survivor lies in the signature's own arena
  above the signature (`MscopeScopes.LeaveKeepsSurvivors`; `SurvivorReused` is the
  failing case). Every other arena of the scopes left is accounted for: a standard one
  is emptied of its survivors and cached or reused for copies, an oversized one kept
  or given back
  (`MscopeEmptied.LeaveEmptiesArenas`).
- **Seeking.** After any run of jumps, advances, and clones and removals at dynamic
  depths, the timeline part of the display is what frames 0 to `cframe` put on an
  empty display, but for dirty marks and the characters of sprites. Since
  `core/sprite.c:629-638` keeps an old sprite in place of a replayed one of another
  character, the characters agree too, all through a run, exactly when no rewind meets
  such a sprite (`SeekSprites.SeekEqualsReplayExactly`). Jumps and advances arrive at
  the frame asked for (`Seek.GotoArrives`). What is shown at a depth is told by the
  stream itself: the last command that places or removes there, and for each field the
  last that carries it (`Commands.SeekShowsCommands`). The in-place merge refines
  functional ones on values and on objects: at each depth it keeps the old object
  itself where that is a compatible sprite, the dynamic objects stay the same objects,
  and over a sprite's life every object made is on the list or given back exactly
  once.
- **Bits.** The reader is a bit sequence with a position, also for inputs whose refill
  strays past the end; the writer appends bits, except that `base/bitval.c:181`
  flushes by a stale count. Lists of writes, zero fills and syncs are read back
  exactly when no write meets that case, proved down to one array that the writer
  fills and the reader reads (`BitExchange.Exchange`).
- **Slab pools.** Deleting a pool finds exactly the live slabs by their first words
  and gives every chunk back once.
- **Colour.** The flag-driven paths, the OR/AND tests and the one-OR clamp equal the
  plain formula, and transforming a byte colour by a concatenation drifts from
  transforming it twice by at most |m|/256 + 3 a component.

## Where the code and its intent differ

| lines | what happens | stated by |
|---|---|---|
| `base/mscope.c:202`, `base/mscope.c:213` | survivors in the signature's own arena are not moved and are overwritten | `MscopeScopes.LeaveKeepsSurvivors`, `MscopeScopes.SurvivorReused` |
| `base/mscope.c:181` | an oversized survivor cannot be kept in a scope that had no arena at entry | `MscopeAbort.LeaveAbortsIff`, `MscopeAbort.OversizedSurvivorAborts` |
| `base/mscope.c:182-183` | an oversized arena is kept behind the signature's own, so its block outlives the scope it was kept for if that one was entered in the same arena | `MscopeEmptied.LeaveEmptiesArenas`, `MscopeEmptied.OversizedOutlives` |
| `base/mscope.c:24` | blocks from the free lists are 8, not 16, bytes aligned | `MscopeAlignment.ReachableAlignment`, `MscopeGlobal.MisalignedBlock` |
| `base/bitval.c:37` | a refill counts bytes already buffered as unread, and reads up to four bytes past the input | `BitReader.Past`, `BitReader.StaleRefill` |
| `base/bitval.c:216`, `base/bitval.h:383`, `base/bitval.h:390-392` | a read of no bits shifts by the whole width of the word: its value is left open, also for the fields of a matrix or colour transform of width 0, and only the position is kept | `BitReader.Reader.ReadUbits`, `Matrix.ReadMatrix`, `CxformRecord.Read` |
| `base/bitval.c:181` | a write over the end of the word flushes by the old count and loses bits | `BitRoundTrip.LostIff`, `BitRoundTrip.OverrunLosesBits` |
| `base/cxform.h:83` | with 64-bit longs an identity has addends of 256, which a reflag makes effective | `Colour.IdentityIsNeutral` |
| `base/cxform.c:51` | an identity leaves 16-bit components over 255 unclamped | `Colour.FastPath`, `Colour.IdentityDoesNotClamp` |
| `base/memory.c:197`, `base/memory.c:222` | the backing allocator is passed the interface instead of its context when a block is resized by it or freed, and only then | `MemoryTable.Memory.Realloc`, `MemoryTable.Memory.Dealloc`, `MemoryTable.ResizedUnderInterface`, `MemoryTable.FreedUnderInterface` |
| `core/sprite.c:629-638` | going back keeps an old sprite of another character in place of the replayed one | `SeekSprites.SeekEqualsReplayExactly`, `SeekSprites.OtherCharacterStays` |
| `core/sprite.c:710` with a counter of 0 | a sprite that was never rewound lags behind its counter | `Seek.SeekFromAnyCounter`, `Seek.PlayerStartsBehind` |

## Model

| member | source | states |
|---|---|---|
| MscopeBlocks.ScanIsBestFit | base/mscope.c:124-134 | the scan finds the smallest non-empty class that fits, and finds none exactly when none does |
| MscopeBlocks.CarveCover | base/mscope.c:109-120 | segmentation frees exactly the bytes of the range but for a rest at its low end, byte by byte |
| MscopeBlocks.CarveLists | base/mscope.c:109-120 | a range gives at most one new block per class, each inside the range, and leaves larger classes alone |
| MscopeBlocks.LeftoverBelow16 | base/mscope.c:26-29 | what segmentation drops of a range below twice the largest class is under 16 bytes |
| MscopeBlocks.TakeBlockCover | base/mscope.c:135-142 | a split partitions the popped block: each free byte is afterwards free or in the block given, never both |
| MscopeBlocks.TakeBlockLists | base/mscope.c:135-142 | after a split each class list has its old blocks, less the popped one, and at most one piece more, all of exact size |
| MscopeBlocks.SplitLeavesNothing | base/mscope.c:138-141 | no byte of a split block is dropped |
| MscopeState.CreateInv | base/mscope.c:239-259 | a new allocator meets the invariant |
| MscopeState.AcquireInv | base/mscope.c:79-95 | acquiring keeps the invariant with the arena in hand, which is on no chain and has the room asked for |
| MscopeState.AcquireTakes | base/mscope.c:79-95 | a request that fits a standard arena takes the first cached one and asks nothing of the backing allocator; any other obtains one of the standard size or, if larger, its own |
| MscopeGlobal.LostIsShort | base/mscope.c:150-152 | a retired tail loses under 16 bytes because the largest class exceeds half an arena |
| MscopeGlobal.AllocGlobalConserves | base/mscope.c:146-161 | byte by byte, a global allocation moves ownership and loses nothing, except the short rest of a retired tail |
| MscopeGlobal.AllocGlobalInv | base/mscope.c:146-161 | global allocation keeps the whole invariant |
| MscopeAnswers.AllocGlobalAnswers | base/mscope.c:146-161 | the pointer starts the one new block, of exactly the size asked for: at the high end of the block popped, else at the start of the tail, else at that of a new arena in front of the others; what else changes is named |
| MscopeAnswers.GlobalAnswerLives | base/mscope.c:300-307 | after every further history the block is still there, apart from every other block, free segment and the tail |
| MscopeGlobal.GlobalRangesDisjoint | base/mscope.c:109-161 | all global blocks, free segments and the tail are pairwise disjoint |
| MscopeGlobal.GlobalRangeInArena | base/mscope.c:109-161 | each of them lies in the payload of an arena on the global chain |
| MscopeGlobal.AllocGlobalAlignment | base/mscope.c:24-29 | one call keeps free blocks 8 past a multiple of 16, and its own block starts at one exactly when bumped and 8 past one exactly when from a free list |
| MscopeAlignment.HistoryKeepsPhase | base/mscope.c:146-307 | no call of any history, local ones and leaves included, puts the lists or the tail out of phase |
| MscopeAlignment.ReachableAlignment | base/mscope.c:146-161 | in every state reachable from creation a request of any size is aligned exactly when no free list serves it |
| MscopeGlobal.MisalignedBlock | base/mscope.c:146-161 | three requests that end with a block at offset 4024 |
| MscopeLocal.AllocLocalInv | base/mscope.c:163-177 | local allocation keeps the invariant, avail within limit included, and appends exactly one block of the size asked for, in the newest arena |
| MscopeAnswers.AllocLocalAnswers | base/mscope.c:163-177 | a request that fits is answered at the avail pointer of the newest arena; any other puts one arena in front, cached or obtained |
| MscopeAnswers.LocalAnswerLives | base/mscope.c:163-298 | the block stays live at its address, with its size word and, unless the caller writes there, its bytes, through every history that leaves no scope open when it was made |
| MscopeLocal.BlockBelowAvail | base/mscope.c:163-177 | every local block lies between the header and the avail pointer of its arena, with its size word in front |
| MscopeLocal.LocalBlocksDisjoint | base/mscope.c:163-177 | two different local blocks share no byte, size words included |
| MscopeSurvive.RelocateContents | base/mscope.c:225-228 | moving a survivor out copies its bytes and leaves every other block's bytes alone |
| MscopeSurvive.ReleaseInv | base/mscope.c:97-107 | releasing an arena keeps the invariant: to the free list if standard, given back if larger |
| MscopeAnswers.ReleasedIsReused | base/mscope.c:79-107 | a standard arena released is the next one acquired, and the cache is as before |
| MscopeSurvive.InsetInv | base/mscope.c:179-184 | putting an oversized arena behind the top of the chain keeps the invariant |
| MscopeSurvive.RewoundInv | base/mscope.c:188-213 | cutting the chain and rewinding keep the invariant with the newer arenas in hand |
| MscopeScopes.LeaveInv | base/mscope.c:186-237 | leaving keeps the invariant and the global side |
| MscopeScopes.SurvivorBesideParent | base/mscope.c:186-237 | a survivor out of a released arena shares no byte with any block of the scope left to, and that block is still live |
| MscopeScopes.LeaveKeepsSurvivors | base/mscope.c:186-237 | every survivor ends in a live block of the local chain, as large and of the same contents, byte for byte apart from the blocks of survivors from other addresses and, if it came out of a released arena, from all the parent's blocks, exactly when none lies in the signature's own arena above it |
| MscopeEmptied.LeaveEmptiesArenas | base/mscope.c:186-237 | with any survivors: each leaves its standard arena, and that arena is cached or back on the chain with nothing but copies out of other arenas; an oversized arena is kept, its survivors unmoved, behind the top and in front of older arenas if a cell points into it, and given back if not; no other block is left but the parent's |
| MscopeEmptied.OversizedOutlives | base/mscope.c:179-184 | enter twice, one oversized block, leave with it and leave again without: the block is still live, in every such state |
| MscopeScopes.LeaveKeepsParent | base/mscope.c:186-237 | cells that do not point into newer arenas, the parent's blocks and the global side are unchanged |
| MscopeScopes.SurvivorReused | base/mscope.c:199-213 | a survivor in the signature's own arena is handed out again by the next allocation, for every such state |
| MscopeAbort.LeaveAbortsIff | base/mscope.c:179-184 | the assertion fails exactly when the scope was entered on the dummy arena and the newest arena with a survivor is oversized |
| MscopeAbort.OversizedSurvivorAborts | base/mscope.c:179-184 | it happens: enter, one block of 4096, leave with it |
| MscopeNested.LeaveRestores | base/mscope.c:186-237 | without survivors, leaving restores the chain, avail pointers and blocks of the matching enter |
| MscopeNested.LeaveReleasesArenas | base/mscope.c:211-236 | each newer arena goes to the free list if standard and is given back if larger |
| MscopeNested.Run | base/mscope.c:163-292 | every well-nested program, at any depth, keeps the invariant and all older local blocks with their contents |
| MscopeNested.Step | base/mscope.c:163-292 | a scope without survivors restores its enter's state around any program inside it |
| MscopeNested.GlobalLeavesLocals | base/mscope.c:146-161 | global allocation leaves the local side alone |
| MscopeNested.CollectInv | base/mscope.c:272-277 | collecting gives back exactly the cached arenas, in order, empties the cache and changes nothing else |
| MscopeHistory.EnterValid | base/mscope.c:279-283 | what enter returns is a valid signature: it points into an arena of the chain and no block straddles it |
| MscopeHistory.ExitSigns | base/mscope.c:285-292 | leaving a scope, survivors and all, keeps the signatures of the scopes around it valid |
| MscopeHistory.OlderSigns | base/mscope.c:285-292 | any outstanding signature, not only the newest, may be left to: those from it outwards stay valid and nested |
| MscopeHistory.CallKeepsInv | base/mscope.c:146-307 | each call, leaves to any outstanding signature included, keeps the invariant and the stack of signatures |
| MscopeHistory.HistoryKeepsInv | base/mscope.c:146-307 | so does every history of calls |
| MscopeHistory.HistoryFromCreate | base/mscope.c:239-307 | after any history from creation all global ranges are pairwise disjoint, and so are all local blocks |
| MscopeHistory.DeleteReturnsEachArenaOnce | base/mscope.c:261-270 | deleting gives back every arena ever obtained exactly once, counting those given back before |
| Mscope.Mscope.AllocBlock | base/mscope.c:122-144 | the scanning loop and the pop, on the fields, equal the functions above |
| Mscope.Mscope.AllocGlobal | base/mscope.c:146-161 | new state and pointer of a global allocation; the pointer starts a new block of the aligned size |
| Mscope.Mscope.AllocLocalAligned | base/mscope.c:163-177 | new state and pointer of a local allocation |
| Mscope.Mscope.AllocateLocal | base/mscope.c:294-298 | the same for the size rounded up, with the block the pointer starts |
| Mscope.Mscope.LeaveLocal | base/mscope.c:186-237 | the two loops, changing chain, avail and the caller's cells in place, equal the function that the theorems are about; each arena of the scopes left ends in the place stated for it |
| Mscope.Mscope.Collect | base/mscope.c:272-277 | the cache is empty and what was in it has been given back |
| Mscope.Mscope.Delete | base/mscope.c:261-270 | walks the three chains and gives each arena back |
| Seek.MergeSplit | core/sprite.c:610-665 | old dynamic objects all stay, in order, above what is merged |
| Seek.MergePicks | core/sprite.c:628-647 | each new depth gets the old object if it is a compatible sprite, with the new transform unless scripted, and the new one otherwise |
| Commands.MergeAtDepth | core/sprite.c:610-665 | a rewind decides each depth by what is there alone: a sprite of the same ratio and clip stays, with the new transform unless scripted; else the new object, or none; dynamic depths are as before |
| Seek.MergeSorted | core/sprite.c:610-665 | the merged list is strictly sorted by depth |
| Seek.MergeAlike | core/sprite.c:610-665 | no command of the stream can tell the merged timeline from the replayed one: kinds, depths, transforms and all but a sprite's character are the same |
| Seek.RewindShows | core/sprite.c:694-700 | a rewind from a state that shows its frames shows the target's frames, sprite characters aside, with the dynamic part unchanged |
| Seek.RunInSync | core/sprite.c:692-716 | every run of jumps, advances, stops, clones and removals keeps display and counters in step |
| Seek.SeekEqualsReplay | core/sprite.c:677-716 | after any run from a counter of -1 the display's timeline part equals frames 0 to cframe replayed in everything the stream sets but the character of a sprite, and the stream stands behind cframe + 1 frames |
| Seek.GotoArrives | core/sprite.c:692-705 | after any run from -1 a jump, stopped or not, ends at the frame asked for: counter, stream position and the faces of its replay |
| Seek.AdvanceArrives | core/sprite.c:707-716 | an advance ends at the next frame modulo the number of frames, and does nothing when stopped |
| Seek.StoppedStays | core/sprite.c:707-716 | stopped, advanced any number of times and set going again, a sprite is as it was |
| Seek.SeekFromAnyCounter | core/sprite.c:677-716 | from any counter the two agree exactly if it was -1 or the sprite has been rewound, and how far they are apart otherwise |
| Seek.PlayerStartsBehind | core/sprite.c:707-716 | a counter of 0 reads frame 1 after playing frame 0 alone |
| Seek.GotoKeepsDynamics | core/sprite.c:692-705 | a jump leaves what the objects at dynamic depths hold unchanged; which objects they are is the concern of the class |
| Seek.InSyncLegal | core/sprite.c:414-423 | no jump of such a run mounts on an occupied depth |
| Commands.ScriptAtDepth | core/sprite.c:561-607 | a clone takes the place of what was at its depth, a removal empties it, and no other depth changes |
| SeekSprites.MergeCharacters | core/sprite.c:628-640 | the merge gives the characters of the replay exactly if no compatible old sprite of the same depth has another one |
| SeekSprites.GotoExact | core/sprite.c:692-705 | a jump counts the frame asked for and ends with the replay itself, characters included and dirty marks aside: forward if it started so, and back exactly if it finds the cast it replays |
| SeekSprites.SeekEqualsReplayExactly | core/sprite.c:677-716 | every state of a run equals the replay of its frames, characters included and dirty marks aside, exactly if every rewind of it finds the cast it replays |
| SeekSprites.OtherCharacterStays | core/sprite.c:629-638 | two frames with sprite 7, then 5, at one depth: going to frame 1 and back leaves 5, where the replay has 7 |
| Timeline.ApplyTagSorted | core/sprite.c:536-551 | place, move and remove keep the list strictly sorted |
| Commands.ChangeMoves | core/sprite.c:244-264 | a move sets the matrix, colour transform, ratio and character of the object at its depth to its own where it carries them and leaves the rest, an object changed by scripts and every other object alone |
| Commands.CommandEffect | core/sprite.c:509-551 | what each command does at each depth, field by field |
| Commands.ReplayShown | core/sprite.c:509-551 | after any number of frames an object is at a depth exactly if the last command to place or remove there places, and each field is that of the last command that carries it |
| Commands.SeekShowsCommands | core/sprite.c:677-716 | so it is after any run of jumps, advances and scripts at dynamic depths, for frames 0 to cframe, the character of a sprite aside |
| DisplayMerge.MergeNodesSplit | core/sprite.c:610-665 | every old dynamic object stays, the same object, in order, above what is merged |
| DisplayMerge.MergeNodesPicks | core/sprite.c:628-647 | at each new depth the merged list has the old object itself if it is a compatible sprite, and the new one otherwise |
| DisplayMerge.MergeConserves | core/sprite.c:610-665 | every object of the two lists is on the merged one or deleted, exactly once |
| DisplayMerge.MergeKeepsSprites | core/sprite.c:628-640 | the same for two whole lists: every old sprite the replayed one is compatible with stays at its place |
| DisplayMerge.MergedDynamics | core/sprite.c:622-627 | after the merge the dynamic objects, and what they hold, are those of the old list |
| DisplayList.SpriteObject.MountObject | core/sprite.c:414-423 | the linked list gets the object at its depth, the value list is the specified one, and a timeline object leaves the dynamic ones alone |
| DisplayList.SpriteObject.UmountObject | core/sprite.c:425-436 | what is unlinked, and that the rest stays linked in order |
| DisplayList.SpriteObject.ChangeObject | core/sprite.c:509-515 | the object at the depth, and only it, is changed in place, each field by what the command carries; no link moves |
| DisplayList.SpriteObject.DelChild | core/sprite.c:455-462 | the child and no other leaves the chain |
| DisplayList.SpriteObject.DeleteObject | core/sprite.c:529-534 | the object is given back, and the children chain is again exactly the live sprites |
| DisplayList.SpriteObject.MergeLoop | core/sprite.c:614-652 | the pointer surgery of every turn keeps three apart lists linked and moves toward the functional merge |
| DisplayList.SpriteObject.MergeOld | core/sprite.c:610-665 | the list after the in-place merge has exactly the objects, in the order, of the merge on objects, holding what the merge on values says; the deleted ones are exactly the others, in order; the data of new and of deleted objects is not written; the children are exactly the sprites on the list |
| DisplayList.SpriteObject.RemoveObject | core/sprite.c:545-551 | unlinks and gives back the object at a depth, keeping list, children and the account of all objects in order |
| DisplayList.SpriteObject.CreateObject | core/sprite.c:517-527 | one new object with the fields of the command, on the list and, if a sprite, among the children; the dynamic ones stay |
| DisplayList.SpriteObject.ApplyTag | core/sprite.c:536-551 | the effect of a command at every depth, on the linked list |
| DisplayList.SpriteObject.ProgressFrames | core/sprite.c:677-690 | plays n frames, the last one with fast-forwarding off; the dynamic objects stay the same objects |
| DisplayList.SpriteObject.GotoFrame | core/sprite.c:692-705 | the counter is the frame asked for, stopped or not; the fields after a jump are those of the value function; the dynamic objects are the same objects in order with the same data; a rewind keeps every sprite the replayed one is compatible with; every object ever made is on the list or given back, once |
| DisplayList.SpriteObject.AdvanceFrame | core/sprite.c:707-716 | the same for an advance: the counter goes to the next frame, around the end, and stays when stopped; with the rewind at its wrap-around |
| Bits.ValueLow | base/bitval.h:380-384 | the low n bits of any integer read as a number are that integer modulo 2^n |
| Bits.SignedLow | base/bitval.h:386-400 | a number that fits n signed bits comes back from them |
| Bits.SignedShift | base/bitval.h:386-391 | the arithmetic shift of a left-justified word sign-extends its field |
| BitReader.Past | base/bitval.c:33-65 | how far a refill strays past the input: at all exactly if a byte is buffered and fewer than four are unread |
| BitReader.Reader.RemainBits | base/bitval.h:304-325 | despite unsigned wrap-around, the number of bits left |
| BitReader.Reader.FillHibuf | base/bitval.c:33-65 | buffer, count and pointer after a refill, by the stale count the code uses |
| BitReader.Reader.ReadHbits | base/bitval.c:198-222 | drops the first n bits of what is left and returns them on top, whatever lower bits the mask lets through, and exactly them where it lets none through |
| BitReader.Reader.ReadUbits | base/bitval.h:380-384 | moves on by n bits for every n up to 32, and for n > 0 gives their value |
| BitReader.Reader.ReadSbits | base/bitval.h:386-400 | the same with their two's complement value |
| BitReader.Reader.PeekUbits | base/bitval.h:416-422 | the same value with nothing changed |
| BitReader.Reader.SkipBits | base/bitval.c:224-240 | drops n bits for every n, across whole bytes and a refill |
| BitReader.Reader.Sync | base/bitval.h:274-288 | moves to the next byte boundary, also from a buffer that strayed |
| BitReader.StaleRefill | base/bitval.c:33-65 | twenty and then fifteen bits of a five-byte input read one byte past it |
| BitReader.PaddingIsEnough | base/bitval.c:33-65 | with 32 bits to spare behind a read nothing strays |
| BitWriter.LoopWrites | base/bitval.c:173-195 | what the loop does to word and array, flush by the stale count included, in closed form |
| BitWriter.Writer.Flush | base/bitval.c:104-134 | the first bytes of the word, by its count, go to the array and nothing else of it changes |
| BitWriter.Writer.WriteUbits | base/bitval.c:173-195 | for every width up to that of the word, what has been written afterwards; bytes in front of the cursor and behind it are untouched |
| BitWriter.Writer.ZeroBits | base/bitval.c:136-171 | appends n zeros for every n, through the word and straight to the array |
| BitWriter.Writer.Sync | base/bitval.h:274-288 | pads with zeros to a byte boundary |
| BitRoundTrip.LostIff | base/bitval.c:173-195 | a call loses bits exactly if the number overruns a word with a whole byte free, and then whole bytes |
| BitRoundTrip.PutAllLength | base/bitval.c:104-195 | over any list, what is missing at the end is the sum of what the calls lost, and that is zero exactly on intact lists |
| BitExchange.WriteItems | base/bitval.c:104-195 | the writer on any list it has room for: what is written, and the array behind the cursor untouched |
| BitExchange.ReadItems | base/bitval.c:198-240 | the reader on any list: the two readings of each number that has bits, and the position behind the list |
| BitExchange.Exchange | base/bitval.c:104-240 | a list written to an array, synced and read from it: on intact lists every number that has bits comes back, unsigned and signed, for every mask and whatever lies behind the array |
| BitRoundTrip.WriteThenRead | base/bitval.c:104-222 | the bits of every list written and synced read back value by value, signed or not, through the same syncs, and end where the writing ended, exactly when the list is intact |
| BitRoundTrip.OverrunLosesBits | base/bitval.c:173-195 | 32, 8 and 32 bits in a 64-bit word lose 24, for all values |
| BitRoundTrip.ShortRunsAreIntact | base/bitval.c:173-195 | lists with at most a word of bits between syncs are intact |
| Matrix.ReadMatrix | base/matrix.c:65-81 | the six fields, save that numbers of width 0 are left open, absent parts unchanged, and the position behind the record |
| Records.MatrixLaid | base/matrix.c:65-81 | a record written front to back (flag, width, two numbers; flag, width, two numbers; width, two numbers) has its parts where the reader looks for them |
| Records.MatrixReadBack | base/matrix.c:65-81 | reading it back gives each field its number and stops behind the record |
| Matrix.SkipMatrix | base/matrix.c:83-96 | the same position, for every record with data-dependent widths and both optional parts |
| Slab.AllocInv | base/slab.c:114-133 | allocation keeps live, freed and unused slots a partition of all slots, and gives a slot that is not live |
| Slab.DeallocInv | base/slab.c:135-142 | so does deallocation |
| Slab.RunInv | base/slab.c:114-142 | so does every run, and the slots live after it, with those it gave back, are the slots live before it and those it handed out |
| Slab.ReusedNewestFirst | base/slab.c:114-142 | slots given back and asked for again come newest first, and the slab is as it was |
| Slab.AsksWhenFull | base/slab.c:122-128 | a chunk is asked for exactly when every slot is live |
| Slab.SlotsApart | base/slab.c:129-131 | distinct slots of a chunk share no byte |
| Slab.LiveSlotsApart | base/slab.c:114-133 | no two live slots share a byte, and each lies inside a chunk of the slab |
| SlabStruct.BumpMeetsSentinel | base/slab.c:122 | the bump pointer never passes the sentinel and equals it exactly when the chunk is used up |
| SlabStruct.ThreadedPush | base/slab.c:135-139 | the list threaded through first words gets the slot in front |
| SlabStruct.SlabObject.Alloc | base/slab.c:114-133 | fields and pointer after an allocation are those of the value function |
| SlabStruct.SlabObject.Dealloc | base/slab.c:135-142 | the same for a deallocation |
| SlabPool.ScanReads | base/slab.c:69-92 | every word the backward scan reads belongs to a slot handed out, since older chunks are full |
| SlabPool.ScanTurns | base/slab.c:88-89 | nothing live is passed over between one chunk and the next |
| SlabPool.AllocMarks | base/slab.c:164-176 | the first word keeps telling live slabs from freed ones |
| SlabPool.FiniHolds | base/slab.c:57-67 | giving one slab's chunks back leaves all other owners' chunks as they are |
| SlabPool.Pool.AllocSlab | base/slab.c:164-176 | a pool allocation keeps words, chains and ownership in agreement |
| SlabPool.Pool.DeallocSlab | base/slab.c:178-182 | gives back the slab's chunks and frees its slot |
| SlabPool.Pool.ScanChunk | base/slab.c:76-84 | the inner loop finalises exactly the live slabs of one chunk and stops at its first slot |
| SlabPool.Pool.ScanPool | base/slab.c:69-91 | the scan finalises the live slabs, each once, and nothing twice |
| SlabPool.Pool.Delete | base/slab.c:157-162 | afterwards nothing is held, and every chunk ever obtained has been given back exactly once |
| IntBits.AllAre | base/cxform.c:35-39 | the OR and the AND of four fields are both v exactly when all four are |
| IntBits.OrFits | base/cxform.c:75-78 | an OR fits n bits exactly when both operands do |
| Cxform.ByteTests | base/cxform.c:75-79 | the two tests on one OR say whether all components are bytes and whether one is negative |
| Cxform.Cxform.Reflag | base/cxform.c:29-40 | the flag after the OR/AND test is that of the comparisons field by field |
| Cxform.Cxform.Clamped | base/cxform.c:75-89 | the short-cut clamp is the clamp on all four components |
| Cxform.Cxform.TransformRgba | base/cxform.c:44-97 | every flag path gives the clamped formula of the flag's effective channels |
| Cxform.Cxform.Concat | base/cxform.c:101-154 | the nested switch with in-place updates equals the value function |
| Colour.FastPath | base/cxform.c:51-53 | the flag-0 path equals the clamped formula exactly if a flag is set or no component is over 255 |
| Colour.IdentityDoesNotClamp | base/cxform.c:51-53 | a component over 255 comes out of an identity as it went in, where the formula clamps it to 255 |
| Colour.FieldsSayAll | base/cxform.c:51-74 | a transform that agrees with a flag other than 0 may be applied by its fields, ignoring the flag |
| Colour.ReflagMeaning | base/cxform.c:29-40 | after a reflag the flag hides nothing: fields it leaves out are neutral |
| Colour.IdentityIsNeutral | base/cxform.h:72-85 | an identity changes no colour, and survives a reflag exactly where longs have 32 bits |
| Colour.ConcatIsUniform | base/cxform.c:101-154 | for all sixteen flag combinations the effect is one composition formula, and the neutral-field invariant is kept |
| Colour.CompositionDrifts | base/cxform.c:101-154 | sequence and composition differ by at most abs(m)/256 + 3, by -1 to 2 for multipliers in 0..256, and not at all when the outer does not multiply |
| Colour.ClampedDrift | base/cxform.c:75-89 | a last clamp only shrinks the difference, on the same side |
| Colour.ConcatApproximates | base/cxform.c:42-154 | for whole transforms that agree with their flags and a byte colour: each component transformed twice and once is within these bounds, if nothing overflows or is clamped between |
| Colour.DriftOfTwo | base/cxform.c:42-154 | the upper bound is met |
| Colour.DriftOfMinusOne | base/cxform.c:42-154 | the lower bound is met |
| Colour.ClampBetweenMatters | base/cxform.c:75-89 | with a clamp between the two the difference is the full range |
| CxformRecord.RecordAgrees | base/cxform.c:174-229 | every record read has neutral fields where its flags say so |
| CxformRecord.SixBits | base/cxform.c:179-181 | the flag and width the code takes from six bits are the record's two flags and four-bit width |
| CxformRecord.Read | base/cxform.c:174-229 | fields and position after reading, with and without alpha; at width 0 the numbers are left open, and fields that the flags leave out are neutral at every width |
| Records.CxformLaid | base/cxform.c:174-229 | a record written front to back (two flags, four bits of width, red, green, blue and alpha multipliers, then the addends) means the transform with these channels |
| Records.CxformReadBack | base/cxform.c:174-229 | reading it back gives that transform and stops behind the record |
| Names.TextInjective | core/sprite.c:284-285 | different counters give different names |
| Names.TextReads | core/sprite.c:284-285 | a name is "instance" and the decimal form of its number without leading zeros |
| Names.NameFits | core/sprite.c:283-291 | for 64-bit counters every name goes to one of the three slabs and fits its slot with the terminator |
| Names.TierMonotone | core/sprite.c:287-311 | later names never go to an earlier slab, so a released slab is not needed again |
| Names.NamesDiffer | core/sprite.c:278-323 | live names differ and lie in different slots, in every reachable state |
| Names.IdleIff | core/sprite.c:298-310 | a slab is idle exactly when no live name is in it |
| Names.AttachedOk | core/sprite.c:278-296 | attaching keeps every live name the text of its number, in a live slot of its own |
| Names.DetachedOk | core/sprite.c:317-323 | so does detaching, and the slab it is returned to is the one it came from |
| Names.NamePool.Attach | core/sprite.c:278-315 | the new name's text, and that only slabs of earlier tiers go |
| MemoryTable.ListsRemoved | base/memory.c:87-96 | the table with one entry shifted out lists exactly the other blocks |
| MemoryTable.ListsMoved | base/memory.c:79-85 | an updated entry lists the block at its new address |
| MemoryTable.Memory.Delete | base/memory.c:87-96 | table, total and blocks after the shift |
| MemoryTable.Memory.Alloc | base/memory.c:138-146 | the block and its entry, or nothing at all when either allocation fails; every call passes the client's context |
| MemoryTable.Memory.Realloc | base/memory.c:166-207 | which pointer comes back is known before the call; the first min(old, new) bytes are kept, the old block is gone and others stay; on failure nothing changes, unless resizing to nothing frees (section 7.20.3.4 of ISO C99); the call passes the interface for a context exactly if the block is in the table and the backing allocator resizes it or, by copy, the size is not between half the old and the old, a new block is given and the table has room for it |
| MemoryTable.ResizedUnderInterface | base/memory.c:197 | a context of 1 behind an interface of 2: allocating one block and resizing it by the backing allocator passes it 2 |
| MemoryTable.Memory.Dealloc | base/memory.c:209-222 | removes exactly the block, and reports a pointer that is not in the table; its one call to the backing allocator passes the interface for a context |
| MemoryTable.FreedUnderInterface | base/memory.c:222 | with the same two, so does allocating one block and freeing it |
| MemoryTable.Memory.DeleteAll | base/memory.c:253-268 | gives back every block still held, once |

## Left out

- Mscope.Mscope.LeaveLocal: arenas are records in a map and their chains sequences of handles, so `prev` pointers as addresses, and aliasing between them, are not captured; survivors come as an array of cells instead of a `va_list`. The first loop of the source is modelled by the lemma that it moves nothing for cells that point at live blocks.
- Mscope.Mscope.AllocGlobal: addresses are pairs of arena and offset, sizes are unbounded and those of global requests positive multiples of 16, the layout is that of 64-bit pointers, and the backing allocator succeeds; `base/mscope.c:303` rounds the caller's size before.
- Seek.SeekEqualsReplay: changes by scripts to timeline objects, and clones to timeline depths, are excluded, because script-touched objects ignore the timeline on purpose; frames are lists of place, move and remove commands, legal in that no command places on an occupied depth.
- Timeline.NewOb: `core/sprite.c:219-232` never stores the depth that `core/sprite.c:524` mounts by; the model sets it from the command, and gives new objects cleared flag bits.
- DisplayList.SpriteObject.AttachObject: a nested sprite's own timeline, its first advance, threads and names are not run; the chain of children is a sequence. An object given back is not made again: what the slab does with it is the concern of the slab model.
- BitReader.Reader.ReadHbits: the left shifts at `base/bitval.c:218` and `base/bitval.c:238` of a 32-bit word by 32, undefined in C, are taken to leave zeros. The shift at `base/bitval.c:216` is one of an int, by more than its width where a long has 64 bits and so undefined there; for widths from 1 it is taken to set the top n bits, with any others left open, and for width 0 all are left open.
- BitReader.Reader.FillHibuf: bytes behind the input are there to be read, with any contents; `past` counts how many are. Inputs are short enough for their size in bits to fit a word.
- BitWriter.Writer.WriteUbits: the caller must leave room in the array, as the code, which does not test, demands.
- SlabPool.Pool.AllocItem: the slabs in a pool's slots are values in a map, addressed by their slot; only the pool's own first words are modelled. The backing allocator succeeds and gives chunks not in use.
- Cxform.Cxform.Concat: the two arguments are different objects, as `restrict` demands; the packed stores of `base/cxform.c:158-166` are assignments to the four fields.
- Names.NamePool.Attach: only for objects without a name, on which the code acts; the counter does not wrap; the pool that the name slabs come from is not part of this model.
- MemoryTable.Memory.Realloc: call sites, logging and the zeroing variant are left out; what the backing allocator does is passed in.
- `base/bitval.c:68-101` (bit counts), strings and fixed-width integers of the bit reader: easy members beside the refinement.
- `base/matrix.c:1-63` (transform, concatenation, inversion in floating point), `core/parser.c`, `core/render.c`, `core/muplex.c`, `base/logger.c`, `base/report.c`: unfinished, wrappers, or input and output.
- `core/sprite.c:340-400` and `core/sprite.c:720-1000` (levels, path lookup, digit parsing): not modelled.
