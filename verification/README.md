# Model of PRoot's core algorithms

This project models the parts of PRoot, and of the talloc allocator that it bundles, in which a mistake is hard
to see: the ownership graph and the pools of talloc, the shared-memory cache of translated paths, path
canonicalization and the list of bindings, the ELF load script and its interpreter, the compiler of seccomp
filters, and the state machines that surround a system call. Each part has a specification that does not
mention the algorithm, the algorithm in the form the source gives it, and the proof that they agree.

`dafny verify dfyconfig.toml` checks everything.

| files | what they model |
|---|---|
| `Lists`, `OwnershipGraph`, `TallocShape`, `TallocGrowth`, `TallocMove`, `TallocHeap` | talloc: sibling lists in which only the head knows the parent, secondary owners through reference handles, and a recursive free. The class `Heap` holds the fields of the chunks; its ghost state is the forest they represent, and the owner graph is derived from it. A rank witnesses that ownership has no cycle. |
| `TallocPool` | bump-pointer pools, and realloc inside them |
| `ShmCache`, `ShmProtocol`, `ShmWrap` | the direct-mapped cache behind a seqlock; one step for each access to shared memory, of one writer and any number of readers; and a run in which its counter wraps around |
| `Paths`, `Resolution`, `Canonicalize`, `Bindings`, `PivotRoot`, `Translation` | paths as text and as lists of names, `canonicalize` against pathname resolution, bindings and the mounts that edit them, what pivot_root does to every path, both directions of translation |
| `LoadImage`, `LoadScript`, `LoadProgram`, `LoadStart` | program headers to mappings to script to memory image; the layout of the script in the tracee; running the script of a program with its ELF interpreter; what the program is told about itself |
| `SeccompFilter` | a list of system calls to a classic BPF program, with an interpreter of such programs |
| `Brk`, `Chain` | brk as a mapping of its own; system calls issued in the name of the tracee |
| `Netlink`, `NetlinkReply`, `FakeNetlink`, `NetlinkAnswer` | framing, contents and delivery of emulated netlink replies, and what a reader finds in them |
| `Argv`, `Shebang`, `ExpandShebang` | pointer arrays in the tracee's memory, the shebang line, chains of scripts |
| `Common`, `Words` | what several modules share; little-endian words |

What the proofs found, where the code does less than its comments or callers suggest:

- `extract_shebang` stores the final null at the index of the last character it has read, and drops the argument,
  when the file ends before the line does; a line cut at the limit keeps its trailing blanks (`Shebang.LineParsed`
  gives the exact condition for every length).
- `emulate_pivot_root` does not chop the end of `put_old`. For every table it does what it is meant to do if and
  only if `put_old` has no end left to chop, or is not below the new root, or is the new root with a "/"
  (`PivotRoot.PutOldExactly`). So `pivot_root(".", ".")`, which its comment calls the way to expose the old root
  nowhere, binds it at "/." and every old binding below that (`PivotRoot.PivotDotDot`).
- Its loop goes through a snapshot of the bindings. Those of the command line belong to the lists alone, so one that
  the pivot has replaced is freed when its turn comes: with "-b /usr", a mount on "/newroot/usr" and a pivot to
  "/newroot" (`PivotRoot.MountOverStartup`; `PivotRoot.FreedExactly` gives the exact condition).
- Bindings of the old tree stay in place after a pivot, and take paths away from the new root
  (`PivotRoot.ShadowedLookup`).
- `canonicalize` accepts an empty path, and a "/" behind something that is no directory, which the standard refuses
  (`Resolution.CanonicalizeStandard`).
- `chop_finality` also cuts a last name that ends in a dot (`Paths.ChopMeaning`).
- `clear` writes beyond a range that starts and ends inside one word (`LoadImage.ClearExact`); the loader never
  asks for one.
- With "/" as the root, a path outside all bindings can come back from the host under a binding's name
  (`Translation.RoundTrip`).
- A relative path without names leaves the buffer with a trailing separator (`Canonicalize.EmptyPath`).
- The length field of a filter program has 16 bits (`SeccompFilter.SetSeccompFilters`).
- A result that is forced with nothing registered is not given to the tracee, and stays behind: a later call that
  chains something without forcing a result returns it (`Chain.MeantResult`, `Chain.StaleResult`).
- A netlink request that cannot be read is answered with -EINVAL under sequence number 0, which readers that match on
  the number pass over (`NetlinkAnswer.AnswerMatches`).
- The seqlock cannot notice 2^31 operations during one read; `ShmWrap.OvertakenLookup` is a run in which it gives an
  answer that was never right.

## Model

| member | source | states |
|---|---|---|
| `OwnershipGraph.FreedKills` | lib/talloc/talloc.c:1110-1224 | any graph in which exactly the chunks with a path around the freed one survive is one in which exactly the dominated ones died and nobody is left without a root |
| `OwnershipGraph.PartialFreeChild` | lib/talloc/talloc.c:1653-1684 | inside the child-free loop, freeing a child with one owner, with all that it dominates, stays on the way to the free of the chunk |
| `OwnershipGraph.PartialDropEdge` | lib/talloc/talloc.c:1653-1684 | dropping one edge out of the chunk stays on the way too, and costs the child no other owner |
| `OwnershipGraph.PartialDone` | lib/talloc/talloc.c:1110-1224 | with no child left, removing the chunk itself completes exactly the free |
| `Lists.TlistAdd` | lib/talloc/talloc.c:542-553 | the macro: pushing a chunk in front of a doubly linked list gives the list with the chunk in front, and touches no other links |
| `Lists.TlistRemove` | lib/talloc/talloc.c:556-567 | the macro: unlinking a chunk, be it the head or not, gives the list without it, and touches no other links |
| `TallocGrowth.NoDanglingHandle` | lib/talloc/talloc.c:957-1021 | in every consistent heap a live handle refers to a live chunk, hangs off a live chunk, and that chunk is one of its owners |
| `TallocGrowth.OwnerCount` | lib/talloc/talloc.c:1414-1490 | a chunk has as many owners as it has references, plus its parent or root status; the first and second handle tell one, two, and more apart |
| `TallocGrowth.LiftAbove` | lib/talloc/talloc.c:1001-1021 | an ownership edge that closes no cycle keeps the graph acyclic |
| `TallocMove.MovedState` | lib/talloc/talloc.c:2056-2073 | a structure that moved, with the pointers of its neighbours repaired, represents the same forest and the same owners under the new name |
| `TallocHeap.Heap.ParentOf` | lib/talloc/talloc.c:542-584 | walking back over siblings ends and returns the logical parent, though only the first sibling stores it |
| `TallocHeap.Heap.IsParent` | lib/talloc/talloc.c:2904-2933 | in an acyclic heap no holder of a reference on a chunk lies below that chunk |
| `TallocHeap.Heap.Alloc` | lib/talloc/talloc.c:739-819 | the new chunk is the first child of its context; every other chunk keeps its owners |
| `TallocHeap.Heap.Reference` | lib/talloc/talloc.c:1001-1021 | one more owner and no other change in ownership; nothing at all when memory runs out |
| `TallocHeap.Heap.FreeHandle` | lib/talloc/talloc.c:957-962 | freeing a handle removes exactly one owner, its holder, from the chunk it refers to |
| `TallocHeap.Heap.FreeInternal` | lib/talloc/talloc.c:1110-1224 | the recursion ends, and takes the owner graph of the heap to the one in which exactly the dominated chunks are gone; a referenced chunk only loses its first reference; lists, parents and handles stay consistent |
| `TallocHeap.Heap.FreeChildren` | lib/talloc/talloc.c:1653-1684 | the loop frees every child, or hands it over to the holder of its first reference, and leaves the chunk without children |
| `TallocHeap.Heap.FreeFirstChild` | lib/talloc/talloc.c:1658-1683 | one round: the new owner is picked before the free, the child loses one owner, and the loop is closer to its end |
| `TallocHeap.Heap.FreeChildrenOf` | lib/talloc/talloc.c:1691-1725 | the chunk stays with its own owners and owns nothing; exactly the chunks that depended on it are gone |
| `TallocHeap.Heap.StealInternal` | lib/talloc/talloc.c:1260-1335 | the lists represent the forest in which the chunk hangs off its new parent; one owner is exchanged |
| `TallocHeap.Heap.Steal` | lib/talloc/talloc.c:1342-1373 | exchanges the parent and no other owner; a steal onto the chunk itself changes nothing |
| `TallocHeap.Heap.Reparent` | lib/talloc/talloc.c:1382-1407 | one owner, parent or reference, is replaced by another; NULL is returned when there is no such owner |
| `TallocHeap.Heap.Unreference` | lib/talloc/talloc.c:1414-1436 | removes exactly one reference held by the context, or reports that there is none |
| `TallocHeap.Heap.Unlink` | lib/talloc/talloc.c:1444-1490 | a successful unlink removes exactly one owner, and frees the chunk if and only if it was the last |
| `TallocGrowth.FreeKills` | lib/talloc/talloc.c:1762-1793 | a chunk with one owner goes with exactly what every ownership path reaches through it: survivors stay rooted and keep their owners, and no other graph meets that specification; a root with one reference only loses root status and nobody goes; otherwise nothing changes; and no handle is ever left at a freed chunk |
| `TallocHeap.Heap.Free` | lib/talloc/talloc.c:1762-1793 | the code: a chunk with one owner is freed together with exactly what it dominates; a root with one reference only loses root status; otherwise it is refused without any change |
| `TallocHeap.Heap.Attach` | lib/talloc/talloc.c:802-815 | hooking a chunk in front of the children of another gives the forest with that edge, the parent field moving to the new head |
| `TallocHeap.Heap.Detach` | lib/talloc/talloc.c:1260-1335 | taking a chunk off its list gives the forest without that edge, the parent field moving to the new head |
| `TallocHeap.Heap.Realloc` | lib/talloc/talloc.c:1801-1862 | ownership survives a realloc, under a new name if the chunk moved; size zero is an unlink; referenced chunks and failures change nothing |
| `TallocHeap.Heap.MoveChunk` | lib/talloc/talloc.c:2056-2073 | after a moving realloc the heap is consistent and ownership the same up to the name |
| `TallocPool.RunSafe` | lib/talloc/talloc.c:682-734 | over every run of allocations, frees, steals and reallocs, each member keeps a header and its bytes to itself, aligned and inside the pool, the count is right, an empty pool has been rewound, and memory is released exactly when the pool is freed and empty |
| `TallocPool.StepValid` | lib/talloc/talloc.c:1025-1099 | every operation that a caller may do keeps that invariant |
| `TallocPool.ReplacedValid` | lib/talloc/talloc.c:1886-2018 | a member may be replaced by any aligned one that does not meet the others |
| `TallocPool.ResizedOutcome` | lib/talloc/talloc.c:1837-2018 | whichever branch of realloc is taken, the other members keep place and size and the resized one is where the caller is told |
| `TallocPool.ResizedPlace` | lib/talloc/talloc.c:1886-2018 | a member never moves unless it grows; it is turned out if and only if it grows and there is room neither at the end, nor in its place at the top, nor in front when it is alone; and where the end of the pool is afterwards |
| `TallocPool.ResizedValid` | lib/talloc/talloc.c:1837-2018 | shrinking, the sole chunk moved to the start, the same size, growing the last, moving in the pool and escaping keep the invariant |
| `TallocPool.ServedThenDropped` | lib/talloc/talloc.c:1959-2018 | a realloc that moves inside the pool leaves the other members, puts the resized one at the old end, and gives the old room not back |
| `TallocPool.LastGivesBack` | lib/talloc/talloc.c:1025-1099 | freeing the member allocated last gives its room back: the pool is as before, and starts over when no member is left |
| `TallocPool.RoomAfterDrop` | lib/talloc/talloc.c:1040-1099 | a topmost member gives its room back, another one keeps it blocked until the pool is empty; whichever member is the last, the pool then starts over |
| `TallocPool.CountFits` | lib/talloc/talloc.c:706-734 | the member count never overflows: headers bound the number of members |
| `TallocPool.BudgetServes` | lib/talloc/talloc.c:869-927 | any run of at most n allocations of at most t bytes in all, frees in between, is served from a pool sized for n and t |
| `TallocPool.PooledSizeExact` | lib/talloc/talloc.c:869-927 | the overflow checks of the size computation are exact: it fails if and only if the true size does not fit |
| `TallocPool.PoolChunk.Pooled` | lib/talloc/talloc.c:869-927 | a pooled object leaves its pool with the budget that was asked for |
| `TallocPool.PoolChunk.AllocPool` | lib/talloc/talloc.c:682-734 | succeeds if and only if the footprint fits, and then with a place that no member occupied |
| `TallocPool.PoolChunk.FreePoolmem` | lib/talloc/talloc.c:1025-1099 | the state is that without the member; empty pools are rewound or released |
| `TallocPool.PoolChunk.FreePoolChunk` | lib/talloc/talloc.c:1188-1217 | a pool freed with members lives on until the last of them goes |
| `TallocPool.PoolChunk.Realloc` | lib/talloc/talloc.c:1837-2018 | every branch ends in the state and the answer of the specification |
| `ShmCache.HashStr` | src/jit/shm.c:31-38 | the loop computes the hash, on 32 bits |
| `ShmCache.SlotsAgree` | src/jit/jit_lib.c:277-310 | masking with the table size is the remainder: tracer and tracee look in the same entry |
| `ShmCache.ReplayHolds` | src/jit/shm.c:90-110 | after any history of inserts and clears each entry holds the last insertion into it since the last clear |
| `ShmCache.CleanCopy` | src/jit/shm.c:112-148 | a copy of an entry that nobody was writing gives the answer of the history |
| `ShmCache.ExactAnswer` | src/jit/shm.c:90-148 | with paths shorter than 256 bytes, a hit with h means that (g, h) was inserted and after it neither the table cleared nor the entry written, and the other way round |
| `ShmProtocol.StepInv` | src/jit/shm.c:90-164 | every interleaved step of the writer and of any reader keeps the seqlock invariant |
| `ShmProtocol.RunInv` | src/jit/shm.c:90-164 | so does every run |
| `ShmProtocol.SameReading` | src/jit/shm.c:112-148 | two equal and even counter readings less than half the range apart mean that nothing was written in between |
| `ShmProtocol.WrapUndetected` | src/jit/shm.c:112-148 | without that bound: two readings are equal if and only if no write is going on and the operations in between are a multiple of 2^31 |
| `ShmWrap.OvertakenLookup` | src/jit/shm.c:112-148 | a run with a wrong answer: a lookup overtaken by exactly 2^31 insertions returns a pair, half old and half new, that the table never held |
| `ShmProtocol.Linearizable` | src/jit/shm.c:90-164 | an answer is the right one at some instant between call and return, whatever the interleaving |
| `ShmProtocol.HitIsExact` | src/jit/jit_lib.c:277-310 | with short paths no torn or stale pair is ever returned, and a miss means that the path was not there |
| `ShmProtocol.HistoryIsAsked` | src/jit/shm.c:90-164 | the history that answers are measured against is exactly the operations that the writer was asked for, in order |
| `ShmProtocol.NeverBlocked` | src/jit/shm.c:112-148 | a reader always has a step to take, even if the writer stopped in the middle of a write |
| `ShmProtocol.LookupEnds` | src/jit/shm.c:112-148 | every lookup ends within 12 rounds |
| `ShmProtocol.GivesUpExactly` | src/jit/shm.c:112-148 | over every run, counted from its accesses: a lookup gives up if and only if it began 12 rounds and each of them read an odd counter or two different values; otherwise it answers in the first round that did not |
| `Paths.CompareKeys` | src/path/path.c:536-587 | comparing strings decides the prefix order of the parts between separators, for any two absolute paths |
| `Paths.CompareMeaning` | src/path/path.c:536-587 | which for canonical paths is the order of their names, "/" included |
| `Paths.RenderInjective` | src/path/path.c:536-587 | two canonical paths with the same text are the same |
| `Paths.JoinPaths` | src/path/path.c:51-111 | inserts exactly one separator where needed, and fails exactly when the result does not fit |
| `Paths.JoinedShape` | src/path/path.c:51-111 | the result begins with the first path, ends with the second, and has one separator where they meet |
| `Paths.JoinedNames` | src/path/path.c:51-111 | and its names are those of both, for any two strings |
| `Paths.PopComponent` | src/path/canon.c:44-71 | removes the last name of a canonical path; "/" stays |
| `Paths.SubstitutePathPrefix` | src/path/path.c:679-738 | the in-place edit gives the specified text, or leaves the path alone when it would not fit |
| `Paths.SubstituteMeaning` | src/path/path.c:679-738 | it replaces one list of names by another in front of a path, with both "/" special cases, if and only if the result fits |
| `Paths.ChopFinality` | src/path/path.c:264-281 | removes what the string tests say |
| `Paths.ChopMeaning` | src/path/path.c:264-281 | which is the finality suffix if and only if there is one or the last name does not end in a dot |
| `Resolution.WalkArrives` | src/path/canon.c:199-402 | the result is canonical, every proper prefix is a directory and no link, and the result is no link if links are followed |
| `Resolution.WalkAgrees` | src/path/canon.c:230-371 | the nested recursion on links agrees with the flat work list of the standard, at every level and for every remaining path |
| `Resolution.LinksBounded` | src/path/canon.c:206-210 | fewer than 2^MAXSYMLINKS links are followed in all; ELOOP only after more links than levels were left |
| `Resolution.CanonicalizeResolves` | src/path/canon.c:199-402 | when every name, path and link text that is met is short enough, which is said over the run of the work list alone, the walk gives the path or the error of section 4.13 of IEEE Std 1003.1-2017, and otherwise ENAMETOOLONG; only the loop limit is apart |
| `Resolution.CanonicalizeStandard` | src/path/canon.c:199-402 | the whole procedure of section 4.13, with its rules for an empty path and for a "/" behind something that is no directory: where nothing is too long the walk agrees with it if and only if neither of the two applies |
| `Resolution.EnoughLinks` | src/path/canon.c:206-210 | a path that takes at most MAXSYMLINKS links gets the exact answer, and never ELOOP |
| `Resolution.CanonicalStays` | src/path/canon.c:199-402 | a canonical path resolves to itself without following a link |
| `Resolution.SuffixAsked` | src/path/canon.c:87-262 | in terms of the string: a last dot stays one, two dots or a separator at the end ask for a separator, anything else for nothing |
| `Resolution.DotMeansDirectory` | src/path/canon.c:241-290 | a path that ends in "." leads to a directory |
| `Resolution.CanonicalizeIdempotent` | src/path/canon.c:199-402 | canonicalizing a result again, its suffix included, is the identity |
| `Canonicalize.NextComponent` | src/path/canon.c:87-127 | the parser yields the next name, whether it is the last, and how the path ends |
| `Canonicalize.BindingStat` | src/path/canon.c:136-187 | a component that is not final must be a directory or a link |
| `Canonicalize.GuestPath.Canonicalize` | src/path/canon.c:199-402 | the string algorithm, its buffer edited in place, ends on every file system and gives the text or the error of the walk |
| `Canonicalize.GuestPath.FollowLink` | src/path/canon.c:340-371 | the recursion on a link, at one level more for each link met, is the walk on its text; refused exactly if the text has PATH_MAX characters |
| `Canonicalize.CanonicalizeCorrect` | src/path/canon.c:199-402 | success means: what the standard finds, in canonical form, with what the end of the path string asked for |
| `Canonicalize.CanonicalizeAnswers` | src/path/canon.c:199-402 | the exact answer or error of every call on strings: EINVAL, ENAMETOOLONG, the error of the standard, or the text; ELOOP only where the standard with that limit says so |
| `Canonicalize.EmptyPath` | src/path/canon.c:226-262 | the one exception, with its exact condition: a relative path without names leaves a separator behind unless the base is "/"; and when that does not fit |
| `Bindings.FirstMatchIsLongest` | src/path/binding.c:120-165 | in a sorted list the first match is the binding with the longest guest path |
| `Bindings.RootIsLast` | src/path/binding.c:199-225 | the root binding is the last one |
| `Bindings.BindingLists.InsortGuest` | src/path/binding.c:297-376 | the loop keeps the order, replaces a binding of the same guest path and adds the new one |
| `Bindings.BindingLists.InsortHost` | src/path/binding.c:297-376 | the same for host paths, where equal paths are kept, the oldest in front |
| `Bindings.BindingLists.Insort` | src/path/binding.c:381-388 | the guest path now leads to the host path and nothing else changes; both lists hold the same bindings |
| `Bindings.BindingLists.InitializeBinding` | src/path/binding.c:547-613 | a binding of the command line is entered the same way, owned by the lists alone; the bindings of other guest paths stay |
| `Bindings.BindingLists.RemoveFromAllLists` | src/path/binding.c:277-287 | the binding is gone from both lists and the others keep their order |
| `Bindings.BindingLists.GetGuestBinding` | src/path/binding.c:120-165 | first match on the guest side returns the longest matching prefix, for every path |
| `Bindings.BindingLists.EmulateMount` | src/syscall/enter.c:227-266 | a mount is an update of the table of bindings at one guest path; the new binding has another owner than the lists |
| `Bindings.BindingLists.EmulateUmount` | src/syscall/enter.c:418-441 | an umount removes exactly the binding with that spelling of the guest path, never the root |
| `Bindings.BindingLists.EmulatePivotRoot` | src/syscall/enter.c:275-408 | for any absolute paths, whatever end put_old kept and whatever earlier pivots left: the edit of the lists under iteration is the fold of one move or copy for each binding of the snapshot, order, distinctness and root are kept; or the loop reads a freed binding, exactly when one owned by the lists alone has been replaced before its turn |
| `PivotRoot.OldRootMeaning` | src/syscall/enter.c:316-331 | where the string tests put the old root, part by part, for every put_old and every end of it |
| `PivotRoot.TargetMeaning` | src/syscall/enter.c:355-404 | the string tests of the loop decide what the plan on names says: what lies under the new root moves, anything else is copied unless it is below put_old already or gets too long |
| `PivotRoot.PivotMeaning` | src/syscall/enter.c:345-408 | on canonical paths the whole loop is the one on names |
| `PivotRoot.PutOldExactly` | src/syscall/enter.c:299-331 | pivot_root leaves the table that it is meant to leave, for every table, if and only if put_old has no end left to chop, or is not below the new root, or is the new root with a "/" |
| `PivotRoot.PivotExact` | src/syscall/enter.c:299-408 | the same for one table: with one exception, a "/" when a binding at put_old moves there anyway and nothing is copied |
| `PivotRoot.DotHidesOldRoot` | src/syscall/enter.c:299-331 | with a "/." at its end put_old is the same as none for every path that can be looked up |
| `PivotRoot.PivotDotDot` | src/syscall/enter.c:306-331 | at pivot_root(".", "."): the old root is bound at "/." and the old bindings below it, where nothing should be; every canonical path is bound as it should be |
| `PivotRoot.PutOldMustBeChopped` | src/path/path.c:679-738 | a lookup below a guest path that kept its end substitutes right if and only if there was no end |
| `PivotRoot.RootsAfterPivot` | src/syscall/enter.c:275-408 | after it "/" leads to the new root, and the old root is found at put_old unless the old tree had a binding there |
| `PivotRoot.MovedWithRoot` | src/syscall/enter.c:345-408 | bindings under the new root keep their host path under the new name, unless that lies below put_old |
| `PivotRoot.NewTreeLookup` | src/syscall/enter.c:345-408 | any path q not below put_old then leads to what new_root + q led to before, if no binding that stays in place is deeper than what moved there |
| `PivotRoot.ShadowedLookup` | src/syscall/enter.c:345-408 | if one is, the deepest of them takes the path: old bindings kept in place shadow the tree of the new root |
| `PivotRoot.OldTreeLookup` | src/syscall/enter.c:345-408 | any path put_old + q leads to what q led to before through the bindings outside the new root, if nothing was bound at put_old |
| `PivotRoot.FreedExactly` | src/syscall/enter.c:333-408 | the loop never reads a freed binding if and only if no binding of the command line has the guest path where the old root goes, or one where a binding before it on the list goes |
| `PivotRoot.MountOverStartup` | src/syscall/enter.c:345-408 | a failing family: a binding of the command line, and in front of it on the list a mount on the same name below the new root |
| `Translation.GetHostBinding` | src/path/binding.c:120-165 | the host-side match is the oldest of the deepest ones, and there is none exactly when nothing contains the path or it belongs to the guest |
| `Translation.SubstituteGuest` | src/path/binding.c:239-272 | the path is rebased from the longest matching guest path to its host path, if and only if that fits |
| `Translation.CutRoot` | src/path/path.c:466-515 | what no binding takes is cut off the root, "/" included, or refused |
| `Translation.DetranslatePath` | src/path/path.c:402-515 | follows the host binding back, or the root, or refuses; the status tells a path left as it is, the size of a new one, and -EPERM apart |
| `Translation.RoundTrip` | src/path/path.c:402-515 | with the hosts of all bindings pairwise apart and, the root excepted, none of them "/", detranslating the host form of a guest path gives it back, if and only if it is not shadowed by a binding reached through the root "/" |
| `LoadImage.LoadInfo.AddMapping` | src/execve/enter.c:56-124 | the mappings appended are the page-rounded file part and, if needed, the anonymous part, each with exactly the rights of the header |
| `LoadImage.MappingsProtected` | src/execve/enter.c:89-117 | bit by bit: every mapping of a header, the anonymous one included, may be read, written and executed exactly if the flags of the header say so |
| `LoadImage.LoadInfo.AddLoadBase` | src/execve/enter.c:311-324 | every mapping moves by the base, on 64-bit words |
| `LoadImage.MappingsExact` | src/execve/enter.c:56-124 | for a loadable header neither rounding nor moving wraps, and the parts are adjacent |
| `LoadImage.Clear` | src/loader/loader.c:56-85 | its three loops write zeros on one range and touch nothing else |
| `LoadImage.ClearExact` | src/loader/loader.c:56-85 | that range is the one asked for if and only if it does not start and end inside one word; an aligned end always suffices |
| `LoadImage.TranscriptMappings` | src/execve/exit.c:144-168 | appends the encoding of one statement for each mapping |
| `LoadImage.Interpret` | src/loader/loader.c:111-170 | the interpreter of packed words does what the statements mean, one by one, and ends |
| `LoadImage.HeaderLoaded` | src/loader/loader.c:111-170 | one header: file bytes, then zeros, at the right place, every page with exactly the rights asked for, and no other page touched; it has to be writable only if bytes of its last file page are zeroed |
| `LoadImage.ImageLoaded` | src/execve/enter.c:56-124 | meaning preservation: running the mappings of all headers leaves every image in memory, with the rights of its header on every page |
| `LoadProgram.ImagesSurvive` | src/loader/loader.c:111-170 | loading another file leaves images alone that lie apart from it |
| `LoadProgram.ObjectLoaded` | src/loader/loader.c:111-170 | opening and mapping a file leaves its images in memory, and the address of its first mapping as the base |
| `LoadProgram.ProgramLoaded` | src/execve/exit.c:174-403 | from the script that is written to the jump: run on it, the loader starts the program in its ELF interpreter, or in itself without one, on the given stack, with the images of all headers of both files in memory under their rights; it says where headers, entry and base are, and makes the stack executable if and only if one of the files asks for it |
| `LoadProgram.HeadersFound` | src/execve/exit.c:318-327 | the address given for the program headers is where the file has put them in memory |
| `LoadStart.AdjustAuxv` | src/loader/loader.c:184-242 | the loops over the stack find the auxiliary vector behind any arguments and environment and adjust it in place |
| `LoadStart.ProgramIsTold` | src/loader/loader.c:208-242 | the program then looks its headers, entry, base and first argument up where the kernel had entries for them, and everything else as the kernel left it |
| `LoadScript.Narrow` | src/execve/exit.c:331-336 | in place, every 64-bit word becomes its low half at half the offset |
| `LoadScript.NarrowedWord` | src/execve/exit.c:331-336 | 32-bit word i is the low half of the former 64-bit word i |
| `LoadScript.ScriptFills` | src/execve/exit.c:251-329 | the statements fill exactly the size computed before |
| `LoadScript.ScriptAligned` | src/execve/exit.c:251-261 | and that size is a multiple of 16 |
| `LoadScript.ComputeLayout` | src/execve/exit.c:221-265 | addresses and padding: strings follow the script, and the new stack pointer is aligned |
| `LoadScript.TransferLoadScript` | src/execve/exit.c:174-403 | the buffer holds the script, with the page of the stack pointer in it, every string is where the script says, and buffer and stack pointer meet |
| `SeccompFilter.DetranslateSysnum` | src/syscall/sysnum.c:104-123 | the loop finds the first entry, or the avoider |
| `SeccompFilter.DetranslatedPlace` | src/syscall/sysnum.c:104-123 | a call has the number of its first place in the table, and the avoider exactly if it has none or is no call |
| `SeccompFilter.DetranslateInjective` | src/syscall/sysnum.c:81-123 | off the avoider the two translations are inverse, and no two system calls share a number |
| `SeccompFilter.MergeFilteredSysnums` | src/syscall/seccomp.c:441-481 | every system call once, with the flags of both lists or-ed |
| `SeccompFilter.FlagsBits` | src/syscall/seccomp.c:441-481 | bit by bit: a merged flag is set if and only if one of the entries for that call sets it |
| `SeccompFilter.ProgramCorrect` | src/syscall/seccomp.c:253-328 | the compiled program returns the verdict of its sections for every architecture and number; all jumps land inside |
| `SeccompFilter.TraceMeaning` | src/syscall/seccomp.c:253-328 | a number is traced with the flags of the one listed system call it stands for |
| `SeccompFilter.OneMeaning` | src/syscall/sysnum.c:81-99 | over disjoint ranges a number stands for one system call at most |
| `SeccompFilter.FilterDecides` | src/syscall/seccomp.c:253-328 | known architecture: a number whose place in a table, and no place before it, names a listed call gives TRACE with all merged flags; any other number ALLOW |
| `SeccompFilter.FilterKills` | src/syscall/seccomp.c:211-229 | unknown architecture: KILL |
| `SeccompFilter.Program.StartArchSection` | src/syscall/seccomp.c:159-204 | emits the section head whose jump skips exactly the section, or refuses what a jump cannot express |
| `SeccompFilter.Program.AddTraceSyscall` | src/syscall/seccomp.c:97-122 | emits one trace entry, refused exactly above 32 bits |
| `SeccompFilter.Program.EndArchSection` | src/syscall/seccomp.c:130-151 | accepts exactly the announced length |
| `SeccompFilter.CountTraced` | src/syscall/seccomp.c:253-328 | the first pass announces as many entries as the second emits |
| `SeccompFilter.SetSeccompFilters` | src/syscall/seccomp.c:253-328 | succeeds if and only if every section can be compiled: numbers and jumps in 32 bits, and its head within the first 65536 statements; then the filter is the program for the list, and its 16-bit length is right if and only if it fits |
| `Brk.ErrnoTest` | src/syscall/heap.c:150-213 | the truncated test reads every error as one, and no page address |
| `Brk.Heap.TranslateBrkEnter` | src/syscall/heap.c:54-145 | the exact call in every state: none of its own when disabled or not yet set up, one private page to read and write behind the image at first, and then the mremap of exactly the mapping of the kernel with its end at the requested break; below the base none |
| `Brk.Heap.TranslateBrkExit` | src/syscall/heap.c:150-213 | for every answer of the kernel the invariant holds again, the base stays, and the program sees the requested break or the one from before |
| `Brk.ResizeIsWellFormed` | src/syscall/heap.c:54-145 | a resize always names the mapping that the kernel has, without wrap-around |
| `Brk.RefinesBrk` | src/syscall/heap.c:54-213 | each call gives the requested break, or leaves the previous one, depending on the kernel only |
| `Brk.FirstBrk` | src/syscall/heap.c:54-213 | how a heap comes into being, or never does: to read and write, empty, and one page behind the image if that place is free |
| `Brk.StepInv` | src/syscall/heap.c:54-213 | every request and kernel answer keeps the mapping at [base - offset, base + size), to read and write |
| `Brk.BaseNeverMoves` | src/syscall/heap.c:54-213 | over every run the base stays where it was first set |
| `Chain.Tracee.RegisterChainedSyscall` | src/syscall/chain.c:43-77 | one call more, at the end or in front of the queue |
| `Chain.Tracee.SysEnter` | src/syscall/syscall.c:153-331 | the enter stage issues exactly one call, the translated, faulty or forged one, and loses nothing of what is queued |
| `Chain.Tracee.SysExit` | src/syscall/syscall.c:246-294 | the exit stage restores the invariant: either the trap is set back for the call taken last, or the chain is over and the registers are those of the tracee |
| `Chain.FirstRound` | src/syscall/syscall.c:153-345 | the first call issued is the translated one, or the faulty one in its place |
| `Chain.LaterRound` | src/syscall/syscall.c:153-345 | each later round issues the call at the head of the queue |
| `Chain.RunInv` | src/syscall/syscall.c:153-345 | the chain invariant holds after every round of every run |
| `Chain.ChainComplete` | src/syscall/chain.c:103-153 | when the chain is over every call that a handler asked for, whatever the histories say, has been issued once and in order, up to edits of arguments by extensions, behind the first one or its faulty stand-in; the instruction pointer is behind the trap, and only then the registers are restored |
| `Chain.NothingLost` | src/syscall/chain.c:103-153 | in the middle of a chain what was taken, the next call included, and what is queued make up what was asked for |
| `Chain.RegisteredIsAsked` | src/syscall/syscall.c:153-345 | after every round what has been registered is the call that a faulty one replaced, then what the handlers asked for at the enter stage and at each exit that they saw, defined from their requests alone |
| `Chain.FaultyArguments` | src/syscall/syscall.c:311-325 | a faulty call keeps its number and has -1 in every argument, for brk 0 in the first |
| `Chain.ForcedResult` | src/syscall/chain.c:103-163 | from any state that earlier calls can leave: the result of a call, and the forced result that it leaves behind |
| `Chain.MeantResult` | src/syscall/chain.c:155-163 | a call returns the result forced during it, or else that of the kernel, if and only if: with nothing registered nothing was forced, or with something registered something was forced or nothing was left over |
| `Chain.LeftBehind` | src/syscall/chain.c:103-163 | a forced result is left for later calls if and only if nothing was registered and one was forced now or before |
| `Chain.StaleResult` | src/syscall/chain.c:103-163 | a failing family: the next call that chains something and forces nothing returns the old forced result |
| `Chain.SessionResult` | src/syscall/chain.c:103-163 | the exact result of every call in the whole life of a tracee |
| `Chain.EveryResultMeant` | src/syscall/chain.c:155-163 | if every call that forces a result registers one as well, every call returns what is meant |
| `Chain.ForcedWithoutChain` | src/syscall/chain.c:155-163 | the other failing family: forced with nothing registered, the result is not given and stays behind |
| `Chain.NotForcedEarlier` | src/syscall/chain.c:103-153 | before the end the result of the kernel is not touched |
| `Netlink.FakeNetlinkDatagramLen` | src/syscall/enter.c:1444-1463 | the loop computes the length of the next datagram, for any bytes |
| `Netlink.DatagramsPartition` | src/syscall/enter.c:1444-1490 | reading to the end delivers every byte once and in order, in datagrams that are not empty |
| `Netlink.ReadsInOrder` | src/syscall/enter.c:1469-1490 | any mixture of reads and peeks delivers a prefix of those datagrams and leaves the rest pending |
| `Netlink.ReadsEnd` | src/syscall/enter.c:1469-1490 | as many reads as there are datagrams leave nothing |
| `Netlink.TerminatedFraming` | src/syscall/enter.c:1431-1463 | what precedes the first NLMSG_DONE is one datagram, what it begins is the other |
| `Netlink.WithoutTerminator` | src/syscall/enter.c:1431-1463 | a reply without terminator is one datagram |
| `Netlink.DoneAlone` | src/syscall/enter.c:1431-1463 | the terminator is a datagram of its own if and only if it ends the reply |
| `NetlinkReply.AttributesRoundTrip` | src/syscall/enter.c:686-703 | walking the attributes of a message yields exactly those that were kept |
| `NetlinkReply.MessageComplete` | src/syscall/enter.c:710-798 | with 256 bytes left a message about a link or an address is complete: header with its numbers, fixed part and every attribute read back |
| `NetlinkReply.GatherFits` | src/syscall/enter.c:1048-1210 | a dump of any number of interfaces or addresses leaves room for its terminator and holds none |
| `NetlinkReply.RelayedEnds` | src/syscall/enter.c:1220-1302 | a relayed dump ends with the terminator of the kernel, or has room for another |
| `FakeNetlink.AddAttr` | src/syscall/enter.c:686-703 | an attribute is appended if it fits and dropped otherwise; the bytes in front stay |
| `FakeNetlink.BuildLink` | src/syscall/enter.c:710-756 | writes one whole message below max, or nothing |
| `FakeNetlink.BuildDone` | src/syscall/enter.c:806-824 | writes the terminator below max, or nothing |
| `FakeNetlink.BuildError` | src/syscall/enter.c:832-855 | writes the error below max, or nothing |
| `FakeNetlink.BuildAddr` | src/syscall/enter.c:763-801 | writes one whole message below max, or nothing |
| `FakeNetlink.BuildHostLinks` | src/syscall/enter.c:1048-1147 | the buffer holds the messages of the dump, or the single one asked for |
| `FakeNetlink.BuildHostAddrs` | src/syscall/enter.c:1152-1210 | the buffer holds one message for each address of a wanted family |
| `FakeNetlink.NoAddresses` | src/syscall/enter.c:1381-1402 | a request for addresses gets none if and only if its family is unknown and the host has no address |
| `FakeNetlink.RelayRouteDump` | src/syscall/enter.c:1220-1302 | the buffer holds the messages of the kernel, readdressed, closed by one terminator |
| `FakeNetlink.BuildReply` | src/syscall/enter.c:1318-1429 | every request, for links, addresses, routes or anything else, gets its answer, never an empty one; -EINVAL stands in for no messages, with sequence number 0 if the request could not be read |
| `FakeNetlink.AnswerFraming` | src/syscall/enter.c:1431-1463 | every answer fits the buffer; a dump is read as its messages, then NLMSG_DONE (section 2.3.2 of RFC 3549) on its own; anything else is read at once |
| `NetlinkAnswer.AnswerMatches` | src/syscall/enter.c:1315-1429 | every message of every answer, relayed ones included, carries the sequence number of the request and the pid of the tracee, and, unless it is the kernel's, NLM_F_MULTI exactly in a dump |
| `NetlinkAnswer.AnswerRead` | src/syscall/enter.c:686-1429 | every answer read byte by byte: which links and addresses are told, in order and as long as there is room, with which fields and attributes; relayed routes; loopback in place of nothing; errors and terminators |
| `FakeNetlink.Scatter` | src/syscall/enter.c:1498-1523 | the segments of the reader get a prefix of the datagram, as long as they have room, each filled before the next |
| `FakeNetlink.FakeNetlinkSocket.Recv` | src/syscall/enter.c:2101-2150 | a read delivers the first pending datagram, segment by segment, cut to the room of the reader, and consumes it whole unless it peeks |
| `Argv.PushFetch` | src/execve/aoxp.c:353-439 | pushing an array and fetching it again yields as many pointers, each with the meaning its entry had, in 32 and 64 bits |
| `Argv.BlockDisjoint` | src/execve/aoxp.c:380-406 | the table and the strings of a pushed block lie apart, in order |
| `Argv.ResizeUndone` | src/execve/aoxp.c:256-296 | what one resize inserts another removes |
| `Argv.FetchArray` | src/execve/aoxp.c:305-346 | fetches the pointers up to and including the null one, or fails if memory ends before it |
| `Argv.ArrayOfXPointers.Resize` | src/execve/aoxp.c:256-296 | entry by entry: those in front of the index that are not removed stay, those behind move by delta, and null entries fill the gap |
| `Argv.ArrayOfXPointers.Push` | src/execve/aoxp.c:353-439 | the block is written right below the stack pointer and the red zone, or nothing happens; -E2BIG and -EFAULT exactly if it does not fit there |
| `Shebang.ExtractShebang` | src/execve/shebang.c:51-198 | the three loops read what the specified reader reads |
| `Shebang.LineRead` | src/execve/shebang.c:51-198 | what is read of a well-formed line of any length, with and without its end, truncation at BINPRM_BUF_SIZE included |
| `Shebang.LineParsed` | src/execve/shebang.c:51-198 | a shebang of any length is read as written if and only if: its end is seen and it is a line end, or there is no argument and a blank in front of it; or its end is not seen and the interpreter ends before the limit, with no argument or one that ends right there |
| `Shebang.LastCharacterLost` | src/execve/shebang.c:132-144 | the failing family has members: without a line end the last character of the interpreter is lost |
| `Shebang.OtherLines` | src/execve/shebang.c:70-128 | a file has no shebang if and only if it does not begin with one; blanks and nothing else behind it is malformed, exactly up to 255 bytes; an empty line names no interpreter |
| `ExpandShebang.ChainExpands` | src/execve/shebang.c:231-304 | up to 19 scripts in a row (MAXSYMLINKS is 20 in sys/param.h) give [interpreter, argument?, script] that many times over and the tail of argv; the first program that is missing, unreadable or malformed gives its error, and a longer chain ELOOP |
| `ExpandShebang.EveryOutcome` | src/execve/shebang.c:208-304 | that covers every file system, path and argument list |
| `ExpandShebang.RewriteArgv` | src/execve/shebang.c:270-297 | one rewriting in place, an empty argv included, keeps the terminator |
| `ExpandShebang.ExpandShebang` | src/execve/shebang.c:208-307 | the tracee finds exactly the arguments of the outcome, or is left alone on every failure; want of room is one exactly if the pointers and the new strings do not fit below the stack pointer and the red zone |

## Left out

- talloc: destructors of users, memory limits, null tracking and autofree, names and reports, the magic words, and references held by NULL. `talloc_reference` and `talloc_steal` are required not to close a cycle, and a context's name chunk is not among its children.
- talloc pools inside pools, and chunks of a pool in the heap model: the two parts of talloc are modelled apart. Addresses are not assigned to chunks in `TallocHeap`.
- TallocHeap.Heap.Reparent: NULL as the new owner is only allowed in place of the parent, because a reference is never held by NULL here.
- TallocHeap.Heap.IsParent: the depth limit is kept, but in an acyclic heap the answer is always no.
- TallocPool.BudgetServes: runs without realloc, as the bound is promised for allocations.
- ShmProtocol.Linearizable: steps are sequentially consistent, and fewer than 2^31 operations complete during one round of a reader; weaker memory orders are not modelled.
- ShmProtocol: setting the memory up, and the other uses of the library in the tracee.
- Canonicalize: `/proc`, bindings that are looked up while a path is canonicalized beyond the file system they make up, and errors of lstat and readlink other than a missing file. The text of a link is the one that detranslation yields (src/path/canon.c:349). A file system is a function from lists of names to directories, files, links and nothing.
- Resolution.CanonicalizeResolves: the reference starts from the names of a path, and says nothing of a walk that gives up with ELOOP, as the standard leaves that limit open; `Resolution.CanonicalizeStandard` adds what the standard says about the rest of the string.
- Canonicalize.GuestPath.Canonicalize: a relative path needs a base that is a canonical directory.
- Bindings.BindingLists.EmulatePivotRoot: once the loop has read a freed binding nothing is said about the lists. Which bindings have another owner than the two lists is a field of the model; the talloc calls behind it are not repeated here.
- PivotRoot.PivotExact: "only if" holds as long as the aliases fit in a buffer (`PivotRoot.PutOldExactly` has no such limit).
- PivotRoot.OldTreeLookup: nothing is bound at put_old or below it before the pivot, and the aliases fit.
- Bindings: the checks of arguments and the error codes of mount, umount and pivot_root, glue files, and the checks of bindings that are given on the command line. Circular lists are sequences.
- Translation.SubstitutePrefix: a result that does not fit leaves the path unchanged without an error, as in the source.
- Translation.SubstituteGuest: the bindings above the path are spelled in the canonical way, which a pivot with an end kept in `put_old` can break (`PivotRoot.PutOldMustBeChopped`); the same for detranslation.
- Translation.DetranslatePath: no referrer, and a guest form that fits in the buffer.
- LoadImage: errors of open and mmap for reasons of the kernel, the choice of the load base, and the name of the process. Headers are those of `PT_LOAD` segments with a file part, congruent offsets and no overflow.
- LoadScript.TransferLoadScript: the stack must have room for the script, as the source takes for granted; writing to the tracee is not part of this model.
- SeccompFilter: `translate_sysnum` is modelled with the index below the length of the table, whereas the source admits the length itself (src/syscall/sysnum.c:95). The avoider is that of x86-64, and installing the filter is left out.
- Brk: tracees with 32-bit words, and the page size of the host when it is not 4096 bytes.
- Chain: the status of the tracee, the pokedata workaround, the cancelled avoider, and calls that an extension registers for another tracee. The instruction pointer does not wrap, and a trap takes two bytes, as on x86.
- Netlink: enumeration of interfaces, receiving from the kernel, failing writes to the tracee, and a buffer for the reply that cannot be allocated. A request comes decoded, together with the interfaces that it selects.
- FakeNetlink.Scatter: every segment has an address and can be written; the source drops the bytes for one without and stops at one that cannot be written.
- Argv: fetching a fixed number of entries, comparing and caching pointees, and failing allocations of the tracer.
- Argv.ArrayOfXPointers.Push: when nothing was written nothing is pushed, so entries that were only removed reach the tracee with the next write, as in the source.
- Shebang: errors of read(2) in the middle of a file. `BINPRM_BUF_SIZE` is 256, its value since Linux 5.1; linux/binfmts.h is not part of this model.
- ExpandShebang.ExpandShebang: the tracee's own strings have to lie outside of the unused stack for the arguments to be found.
- ptrace emulation, `/proc`, rlimits, socket addresses, the rest of the system call switch, the command line, and the extensions.
