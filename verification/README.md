# polyfuse, modelled and verified in Dafny

polyfuse is a library for writing FUSE file systems: it talks to the kernel driver over
`/dev/fuse`. This project models its core as state machines, data layouts and imperative handlers,
and proves what they keep over every run and every input. To verify it:

    dafny verify dfyconfig.toml

## What is modelled

**The in-memory file system** (`examples_disabled/memfs.rs`). `MemFs` is a state machine with one
step per request. `MemFsNames` shows that the nested directory tables refine one flat map from
(directory, name) to inode. `MemFsInvariant` proves the counting invariant over all runs and settles
which requests make an `expect`, `unwrap` or `unreachable!` fire. `MemFsLinks` settles when `links` counts the names,
`MemFsLookups` the kernel's ledger of lookups, reclamation and inode numbers, `MemFsPaging` what a
reader of a directory receives, `MemFsContents` reads after writes, `MemFsHistory` what no request
changes and what a file holds after a whole run. `MemFsServer` holds the handlers
as the source writes them, each proved equal to its step.

**The pass-through file systems** (`examples_disabled/path_through.rs`,
`examples_disabled/passthrough/main.rs`). `INodeCache` is their inode table with a reverse index that
`forget` never cleans, generic in what identifies a source file. `CarryReaddir` is the stateful
readdir that carries over the one entry that did not fit.

**The transport** (`src/buf.rs`, `src/io.rs`, `src/bytes.rs`, `src/msg.rs`, `src/reply.rs`,
`src/session.rs`). `Framing` and `RequestBuffers` receive a kernel message and cut it into header,
argument and payload, through a splice pipe or a vector. `ByteTree` and `Messages` write scattered
reply data and notifications as one message. `DirEntries` packs directory replies.

**The protocol** (`src/init.rs`, `src/connect.rs`, `src/op.rs`, `src/op/decoder.rs`). `Init` is the
negotiation, `Handshake` the connection loop, `Operation` the request layouts and their decoding, and
`RequestPath` joins decoding, framing and file system.

`Ledger` is the kernel's account of lookup counts, common to all three file systems. `Forgets`, `Wire`
and `Prelude` hold what the rest share. Values sent by the kernel, results of system
calls, the order of a hash map and the key a slab picks are parameters or arbitrary choices.

## Results worth knowing

- `links` is the number of names after a run if and only if no forget of the run drops a directory
  that still has entries (`ExactLinksIff`). A removed directory that is still referenced accepts new
  entries, so this can happen: `OrphanedLink` is such a run.
- An inode lingers with neither links nor references exactly when its last link went after its last
  lookup was already forgotten, because `unlink` does not reclaim, and no link or forget has picked it
  up since (`GarbageOverRunsIff`).
- A well-formed file system panics exactly on a live inode linked into itself, on a batch item for node
  0, on the release of a handle that is not open, and on a write to a file that would end at 2^63 or
  beyond. Decoding lets the batch item and the write through (`PanicsIff`, `ZeroItemPanics`,
  `HugeWritePanics`).
- A refused request changes the file system exactly when it is a write with a short payload that
  lengthens the file or brings new bytes (`RefusedStepIff`).
- `opendir` refuses an inode whose `nlink` is 0, but a directory never has `nlink` 0
  (`DirectoriesKeepNlink`).
- `write` reports a size shorter than the contents exactly when it stops before the old end of the
  file (`ReportedSizeIff`).
- All three file systems count a lookup before they reply. The counts exceed what the kernel holds by
  exactly the replies that did not reach it; the descriptor-based file system adds the lookups whose
  attributes do not convert, and links whose reply the session dropped (`CountIsBalanceIff` of
  `MemFsLookups` and of `INodeCache`).
- The carry-over readdir loses entries exactly when something is owed before the next unreadable item
  and either there is such an item and the page has room for all of that, or the reply does not arrive
  and the page has room for the first entry (`CallConservesIff`, over runs `NothingLostIff`). The
  readdir of the in-memory file system, which keeps no position, survives lost replies
  (`PagingDelivers`).
- A create request is decoded rightly exactly from minor version 12 on: the decoder knows no older
  layout, as it does for mknod (`RecoversIff`).
- A write request reaches the file system intact if and only if the kernel uses the layout of minor
  version 9 or later: `arg_len` always cuts at the current struct size (`WriteArrivesIff`).
- The vector buffer accepts messages that are too short for their argument; what it then hands out is
  not all from the message (`VecIsolatesIff`).
- The default congestion threshold is three quarters of `max_background` if and only if that is at most
  21845, because the product is computed in 16 bits (`DefaultThresholdIff`).
- The two sides disagree about the setxattr layout exactly for a session that carries SETXATTR_EXT
  under a minor version from 5 to 32 (`LayoutsAgreeIff`). A library held at such a version under a
  newer kernel gets there, and then misreads every setxattr but those that set an empty name to zeros
  (`SetxattrIsMisread`).
- Kernels of 7.4 and 7.5 send an INIT that is too short for `from_bytes`, so connecting to one fails
  (`FromBytesIff`, `UnreadInitFails`).
- The documentation of `KernelConfig` promises a cap on `max_write` of 32 pages without MAX_PAGES. The
  code does not apply it, and the model follows the code: the cap holds if and only if the requested
  size is within it (`DocumentedWriteCapIff`). The documentation also gives the minimum buffer size as
  an upper bound, where the code applies it as a lower bound.

Where one of these goes against an expectation, a lemma beside it shows a concrete failing input or the
whole failing family.

## Model

| member | source | states |
|---|---|---|
| MemFsNames.NamesOfStep | examples_disabled/memfs.rs:283-559 | Every request, whatever its outcome, changes the flat (directory, name) map as `NamesAfter` says: one pair added, removed or moved, a forget drops the pairs of the directories it drops, everything else leaves it alone |
| MemFsNames.NamesOfMake | examples_disabled/memfs.rs:226-255 | A successful creation adds exactly the pair for the new inode; a failed one changes no name |
| MemFsNames.NamesOfLink | examples_disabled/memfs.rs:481-505 | A successful link adds exactly the pair for the linked inode |
| MemFsNames.NamesOfUnlink | examples_disabled/memfs.rs:257-279 | A successful unlink removes exactly the one pair |
| MemFsNames.NamesOfRename | examples_disabled/memfs.rs:517-559 | A successful rename moves one pair to a place that was vacant; any other outcome leaves the whole state as it was |
| MemFsNames.NamesOfForget | examples_disabled/memfs.rs:303-314 | A forget batch keeps exactly the pairs whose directory survives |
| MemFsNames.ForgetManyIsSettle | examples_disabled/memfs.rs:303-314 | The loop over a batch equals, inode by inode, subtracting the sum once and removing once |
| MemFsInvariant.NextInoVacant | examples_disabled/memfs.rs:71-80 | The allocator's next number is free and named nowhere, so `expect("inode number conflict")` cannot fire |
| MemFsInvariant.NamedIsLinked | examples_disabled/memfs.rs:257-279 | An inode named anywhere is live and counts a link beyond its base |
| MemFsInvariant.GapKept | examples_disabled/memfs.rs:226-559 | No request but a forget moves `links` away from the number of names, and none moves `nlink` away from `links` |
| MemFsInvariant.UnlinkCounts | examples_disabled/memfs.rs:257-279 | The saturating subtractions of unlink never saturate, and the child is not its own parent |
| MemFsInvariant.RenameTouches | examples_disabled/memfs.rs:517-559 | Rename changes nothing of any inode but directory children |
| MemFsInvariant.RenameCounts | examples_disabled/memfs.rs:517-559 | Rename gives every inode as many names as before |
| MemFsInvariant.GapOfForget | examples_disabled/memfs.rs:303-314 | A forget drops an inode only when it has no links, is not the root, is mentioned and its references are used up, and then no name leads to it |
| MemFsInvariant.MakeAdds | examples_disabled/memfs.rs:226-255 | Creation adds exactly the next number, with its one name counted |
| MemFsInvariant.NewInode | examples_disabled/memfs.rs:226-255 | An inode appears if and only if a creating request answered with its number |
| MemFsInvariant.PanicsIff | examples_disabled/memfs.rs:226-681 | In a well-formed state a request panics if and only if it links a live inode into itself, holds a forget item for node 0, releases a handle that is not open, or writes a live file up to 2^63 or beyond |
| MemFsInvariant.NoPanic | examples_disabled/memfs.rs:226-681 | So no admissible request panics |
| MemFsInvariant.StepKeepsWellFormed | examples_disabled/memfs.rs:283-559 | Every request keeps the invariant: entries name live inodes, links are at least the names, `nlink` follows `links` |
| MemFsInvariant.InitWellFormed | examples_disabled/memfs.rs:198-224 | The initial state satisfies it with exact links |
| MemFsInvariant.ReachableWellFormed | examples_disabled/memfs.rs:283-559 | After any run of requests that the kernel, the slab and the hash map may produce, the invariant holds and the last request did not panic |
| MemFsInvariant.OutcomesByNameSpace | examples_disabled/memfs.rs:226-559 | Every request on names is answered as the flat map says, in every well-formed state: the inode, success, or exactly ENOENT, ENOTDIR, EEXIST, ENOTEMPTY, EINVAL or ENOTSUP in the order of the tests |
| MemFsInvariant.OutcomesElsewhere | examples_disabled/memfs.rs:371-681 | Each error, reply and panic of opendir, readdir, releasedir, read and write occurs if and only if its condition on the inode or the handle holds |
| MemFsLinks.ExactStepIff | examples_disabled/memfs.rs:303-314 | One request leaves `links` exact if and only if it was exact and the request drops no directory that has entries |
| MemFsLinks.ExactLinksIff | examples_disabled/memfs.rs:303-314 | After any run `links` is the number of names if and only if no forget of the run dropped a directory with entries |
| MemFsLinks.InexactStays | examples_disabled/memfs.rs:257-279 | Once `links` exceeds the names it stays so |
| MemFsLinks.DeadEmptyOverRuns | examples_disabled/memfs.rs:257-279 | If no request adds an entry to a directory without links, such directories stay empty and no names are orphaned |
| MemFsLinks.LinksCountNames | examples_disabled/memfs.rs:226-279 | Over such runs `links` is the number of names and `nlink` is `links`, plus one for directories |
| MemFsLinks.OrphanedLink | examples_disabled/memfs.rs:303-314 | A concrete admissible run after which a file counts a link that no name accounts for |
| MemFsLinks.DirectoriesKeepNlink | examples_disabled/memfs.rs:371-376 | No reachable directory has `nlink` 0, so the guard of opendir never refuses one |
| MemFsLookups.CountOfStep | examples_disabled/memfs.rs:283-314 | One request changes an inode's lookup count by the entries it sent minus the forgets it brought |
| MemFsLookups.CountIsHeldAndLost | examples_disabled/memfs.rs:283-314 | With a kernel that forgets no more than it holds, every lookup count is what the kernel holds plus what undelivered replies were to hand out, over all runs |
| MemFsLookups.CountIsBalanceIff | examples_disabled/memfs.rs:283-314 | The count is exactly what the kernel holds if and only if every reply that handed out the inode was delivered |
| MemFsLookups.UndeliveredEntry | examples_disabled/memfs.rs:226-255 | A creation whose reply is not delivered leaves a count of 1 against a balance of 0 |
| MemFsLookups.NeverDroppedInUse | examples_disabled/memfs.rs:303-314 | An inode that the kernel references or that has a name is never dropped |
| MemFsLookups.GarbageStepIff | examples_disabled/memfs.rs:257-314 | An inode is garbage after a request if and only if the request unlinks its last name at lookup count 0, or it was garbage and is neither linked nor mentioned by a forget |
| MemFsLookups.GarbageIff | examples_disabled/memfs.rs:257-314 | From a state without garbage, garbage appears if and only if the request abandons an inode |
| MemFsLookups.GarbageOverRunsIff | examples_disabled/memfs.rs:257-314 | After any run exactly the inodes abandoned and not picked up since are garbage |
| MemFsLookups.AbandonedInode | examples_disabled/memfs.rs:257-279 | A concrete run that leaves an inode without links and references in the table |
| MemFsLookups.NumbersNeverReused | examples_disabled/memfs.rs:71-80 | A number that was allocated and is gone never comes back; with generation 0, the number alone is unique |
| MemFsLookups.NumbersKeepMeaning | examples_disabled/memfs.rs:71-80 | A number live at two points of a run was live all the time between, with the same number and kind |
| MemFsLookups.CreatedNumbersDiffer | examples_disabled/memfs.rs:226-255 | Two creating requests of one run hand out different, increasing numbers |
| MemFsLookups.RefusedRequestsLeaveNoTrace | examples_disabled/memfs.rs:226-681 | Leaving all refused requests out of a run, but for the writes that tear a file, leads to the same state |
| MemFsLookups.BatchOrderIrrelevant | examples_disabled/memfs.rs:303-314 | A forget batch has the same effect in any order and as one summed item per inode |
| MemFsLookups.CountersFit | examples_disabled/memfs.rs:283-314 | In a run of fewer than 2^32 - 2 requests no counter leaves its width |
| MemFsPaging.HandleKept | examples_disabled/memfs.rs:371-417 | Whatever request comes, an open handle keeps its snapshot |
| MemFsPaging.PagingDelivers | examples_disabled/memfs.rs:391-411 | A reader amid any other requests, some of its replies lost, always holds exactly the prefix of the snapshot up to its position: no entry twice, missing or out of order |
| MemFsPaging.LargePagesAdvance | examples_disabled/memfs.rs:391-411 | Pages that hold the largest record and arrive advance by at least one entry each |
| MemFsPaging.SmallPagesStall | examples_disabled/memfs.rs:391-411 | Pages too small for one record never get past it |
| MemFsPaging.WholeSnapshot | examples_disabled/memfs.rs:391-411 | With large pages, as many answered calls as entries deliver the whole snapshot, and the next page is empty |
| MemFsPaging.SnapshotLists | examples_disabled/memfs.rs:152-183 | The snapshot lists "." under the directory's number, ".." under its parent's, and every child once, without a type |
| MemFsPaging.OpenedDirectoryIsDelivered | examples_disabled/memfs.rs:371-411 | Opening a directory and paging through it amid other requests delivers its listing at the moment of opening |
| MemFs.Snapshot | examples_disabled/memfs.rs:152-183 | The snapshot has two entries more than the directory and numbers them from 1 |
| MemFsContents.WriteChangesItsRange | examples_disabled/memfs.rs:661-681 | A write changes the bytes of its range to the payload, as far as that goes, and no other, holes reading as zero |
| MemFsContents.WrittenIff | examples_disabled/memfs.rs:661-681 | A write succeeds if and only if the inode is a live regular file, the payload is whole and the range ends below 2^63 |
| MemFsContents.ReadAfterWrite | examples_disabled/memfs.rs:647-681 | After a successful write, reading the range gives the payload; any other read sees the written bytes inside the range and the old ones outside |
| MemFsContents.DisjointWritesCommute | examples_disabled/memfs.rs:661-681 | Writes to disjoint ranges commute |
| MemFsContents.ReportedSizeIff | examples_disabled/memfs.rs:676-678 | The size attribute is the contents' length after a write if and only if the write reaches the old end |
| MemFsContents.ShortOverwrite | examples_disabled/memfs.rs:661-681 | A run of a creation and two writes after which a file of three bytes reports size one |
| MemFsContents.RefusedStepIff | examples_disabled/memfs.rs:226-681 | A refused request changes the state if and only if it is a write to a regular file with a short payload that lengthens the file or brings bytes that are not there |
| MemFsContents.TornWrite | examples_disabled/memfs.rs:661-681 | A run whose last write is refused and leaves four new bytes in the file |
| MemFsHistory.FrameOfStep | examples_disabled/memfs.rs:226-681 | An inode goes through every request but a write to it with its number, its size and its kind: the bytes of a file, the target of a symlink, the parent of a directory |
| MemFsHistory.TablesOfStep | examples_disabled/memfs.rs:71-417 | The allocator moves exactly with the creations, and the handles exactly with opening and releasing |
| MemFsHistory.CreatedAsAsked | examples_disabled/memfs.rs:419-479 | A created inode is an empty file, a directory without names under its parent, or a symlink to the target, with its counters |
| MemFsHistory.EntriesTellNlink | examples_disabled/memfs.rs:226-505 | Every entry reply tells the `nlink` that the inode then has |
| MemFsHistory.ContentsOverRuns | examples_disabled/memfs.rs:661-681 | After any run the bytes of a live file are, position by position, the last written there since its creation; its length is how far the writes reached, its size the end of the last complete one |
| MemFsHistory.ReadsLastWritten | examples_disabled/memfs.rs:647-681 | A read at any point of a run, amid any other requests, returns for each position of its range the last byte written there |
| MemFsHistory.KindsKept | examples_disabled/memfs.rs:226-559 | A symlink keeps its target and a directory its stored parent as long as it is live |
| MemFsServer.Server.constructor | examples_disabled/memfs.rs:198-224 | The server starts in the initial state, which is well-formed |
| MemFsServer.Server.VacantEntry | examples_disabled/memfs.rs:71-80 | The number handed out is new and non-zero, and the next one follows it |
| MemFsServer.Server.MakeNode | examples_disabled/memfs.rs:226-255 | The in-place handler computes the creating step, reply included, and keeps the invariant |
| MemFsServer.Server.UnlinkNode | examples_disabled/memfs.rs:257-279 | The same for unlink and rmdir |
| MemFsServer.Server.LookupChild | examples_disabled/memfs.rs:283-301 | The same for lookup |
| MemFsServer.Server.ForgetBatch | examples_disabled/memfs.rs:303-314 | The forget loop computes the forget step, panicking at an item for node 0 with the items before it done, and keeps the invariant |
| MemFsServer.Server.HardLink | examples_disabled/memfs.rs:481-505 | The same for link, the panic on a self-link included |
| MemFsServer.Server.RenameEntry | examples_disabled/memfs.rs:517-559 | The same for rename, both branches |
| MemFsServer.Server.CollectEntries | examples_disabled/memfs.rs:152-183 | The loop over the children lists ".", ".." and every child once, numbered from 1, and is the snapshot of some enumeration of them |
| MemFsServer.Server.Open | examples_disabled/memfs.rs:371-389 | Opendir computes its step for that enumeration, which is an admissible one |
| MemFsServer.PushFrom | examples_disabled/memfs.rs:402-407 | Pushing entries from the offset until one is refused fills the buffer with exactly the page |
| MemFsServer.Server.ReadPage | examples_disabled/memfs.rs:391-411 | Readdir answers with the packed page of its step |
| MemFsServer.Server.Release | examples_disabled/memfs.rs:413-417 | Releasedir computes its step, the panic on an unknown handle included |
| MemFsServer.Server.ReadContents | examples_disabled/memfs.rs:647-659 | Read answers as its step |
| MemFsServer.Server.WriteContents | examples_disabled/memfs.rs:661-681 | Write computes its step, a short payload and the panic of a range beyond 2^63 included, and keeps the invariant |
| Forgets.SettleUnfold | examples_disabled/memfs.rs:303-314 | Saturating and removing item by item agrees with doing it once for the rest of the batch |
| Forgets.SettleOfPermutation | examples_disabled/path_through.rs:171-187 | The outcome for an inode does not depend on the order of the batch |
| Forgets.SettleOfSummed | examples_disabled/path_through.rs:171-187 | Nor on whether its items were summed first |
| INodeCache.IndexIsScan | examples_disabled/path_through.rs:85-105 | The index finds exactly what a scan over the live inodes finds: the one inode with the key, or nothing |
| INodeCache.StepKeepsConsistent | examples_disabled/path_through.rs:63-105 | Every request keeps index and live table consistent, stale entries included |
| INodeCache.ReachableConsistent | examples_disabled/passthrough/main.rs:739-785 | They are consistent after any run |
| INodeCache.IndexRefinesScan | examples_disabled/passthrough/main.rs:108-154 | In every reachable state resolving through the index equals resolving by a scan, and a key has at most one live inode |
| INodeCache.LookupsAgree | examples_disabled/path_through.rs:135-169 | The answer is live under the key asked for, is found again, and is a new number if nothing was live |
| INodeCache.OutcomesByScan | examples_disabled/passthrough/main.rs:108-370 | Every request is answered by what a scan over the live inodes finds, errors, panics and lost replies included, and the allocator moves exactly when a lookup finds nothing live |
| INodeCache.DistinctNamesDistinctInodes | examples_disabled/path_through.rs:135-169 | Two different (parent, name) pairs have different paths, so looking them up in succession gives different inodes |
| INodeCache.NumbersNeverReused | examples_disabled/passthrough/main.rs:739-785 | A forgotten number never comes back |
| INodeCache.NumbersKeepKeys | examples_disabled/passthrough/main.rs:739-785 | The source file behind a number never changes |
| INodeCache.OneNumberOneKey | examples_disabled/path_through.rs:135-169 | Over a whole run, two lookups answered with the same number asked for the same source file |
| INodeCache.LeaksIff | examples_disabled/passthrough/main.rs:108-370 | A request counts a reference the kernel does not learn of if and only if it is a lookup whose attributes do not convert or whose reply is not delivered, or a link whose reply was dropped |
| INodeCache.CountIsHeldAndLost | examples_disabled/passthrough/main.rs:108-213 | Lookup counts are what the kernel holds plus what leaked; the root and what the kernel holds stay |
| INodeCache.CountIsBalanceIff | examples_disabled/passthrough/main.rs:108-213 | The count is exactly what the kernel holds if and only if no request of the run leaked the inode |
| INodeCache.DeliveredNeverLeaks | examples_disabled/path_through.rs:135-187 | A path-based file system whose replies all arrive keeps exactly what the kernel holds, over all runs |
| INodeCache.LeakedLookups | examples_disabled/path_through.rs:135-169 | For each of the two file systems a fair run of one lookup that leaves a count of 1 against a balance of 0 |
| INodeCache.ForgetManyIsSettle | examples_disabled/path_through.rs:171-187 | The forget loop in closed form, inode by inode |
| INodeCache.BatchOrderIrrelevant | examples_disabled/passthrough/main.rs:196-213 | A batch has the same effect in any order and as one summed item per inode |
| INodeCache.INodeTable.constructor | examples_disabled/path_through.rs:63-105 | The table starts consistent with the root under number 1 |
| INodeCache.INodeTable.InsertVacant | examples_disabled/path_through.rs:93-105 | The new entry goes under a number that was not live, is the only one under its key, and leaves the other inodes and the consistency of the table alone |
| INodeCache.INodeTable.LookupKey | examples_disabled/passthrough/main.rs:108-194 | The lookup handler, reply included, computes its step, keeps the invariant, and answers with the one live inode under the key or else the next number |
| INodeCache.INodeTable.LinkInode | examples_disabled/passthrough/main.rs:328-370 | The link handler computes its step: it counts after the reply, unless that failed |
| INodeCache.INodeTable.ForgetBatch | examples_disabled/passthrough/main.rs:196-213 | The loop removes and counts down as the step says, panicking at an item for node 0, and keeps the invariant |
| CarryReaddir.FillConserves | examples_disabled/path_through.rs:283-323 | The loop takes a prefix of what the stream has to show, numbers it on, and keeps the entry that did not fit |
| CarryReaddir.FillFailsIff | examples_disabled/path_through.rs:283-323 | The loop fails if and only if there is an unreadable item and everything before it fits the page; then all of that was pushed, and the stream goes on behind the item |
| CarryReaddir.FillPushesIff | examples_disabled/path_through.rs:283-323 | The loop pushes something if and only if the first record it comes to fits |
| CarryReaddir.FillFullIff | examples_disabled/path_through.rs:283-323 | The loop stops for lack of room if and only if what stands before the next unreadable item does not all fit |
| CarryReaddir.FillIsMaximal | examples_disabled/path_through.rs:283-323 | The loop pushes as much as fits: a front of the wanted entries before the next unreadable item fits if and only if it is no longer than what was pushed |
| CarryReaddir.AttemptTakes | examples_disabled/path_through.rs:264-326 | Whatever a call does, what it pushed is the numbered front of what was owed and the handle owes the rest |
| CarryReaddir.AttemptIsMaximal | examples_disabled/path_through.rs:264-326 | A call pushes as much as fits: a front of what is owed before the next unreadable item fits if and only if it is no longer than what was pushed |
| CarryReaddir.CallOutcome | examples_disabled/path_through.rs:264-326 | ERANGE, EIO, a dropped page and a page each occur if and only if a condition on handle, size and delivery holds |
| CarryReaddir.DirHandle.PushCarried | examples_disabled/path_through.rs:274-282 | The carried entry is pushed at the current offset if its record fits the page; otherwise nothing changes |
| CarryReaddir.DirHandle.TakeOne | examples_disabled/path_through.rs:283-323 | One turn of the loop: it goes on with an equal outcome ahead, or ends with that outcome |
| CarryReaddir.CallConservesIff | examples_disabled/path_through.rs:264-326 | A call loses and repeats nothing, ERANGE included, unless something is owed before the next unreadable item and, with the reply delivered, there is one and all of that fits, or, with the reply lost, the first record fits; and a call that loses leaves strictly less |
| CarryReaddir.LostEntries | examples_disabled/path_through.rs:264-326 | Two concrete streams of which an entry is neither delivered nor owed: after an EIO, and after a dropped reply |
| CarryReaddir.NothingLostIff | examples_disabled/path_through.rs:264-326 | Over any stream, after calls with any page sizes and deliveries, delivered, carried and unread entries make up the listing if and only if no call lost anything, and then offsets run from 1 |
| CarryReaddir.ReadableNeverLoses | examples_disabled/path_through.rs:264-326 | Nothing is lost of a readable stream when every reply arrives |
| CarryReaddir.LargePagesFinish | examples_disabled/path_through.rs:264-326 | Pages that hold the largest record, arriving, deliver at least one entry per call until the end |
| CarryReaddir.DirHandle.constructor | examples_disabled/path_through.rs:246-262 | A new handle has the whole stream ahead, nothing carried, and offset 1 |
| CarryReaddir.DirHandle.FillBuffer | examples_disabled/path_through.rs:283-323 | The loop in place: buffer, handle, ending and the at-least-one flag are those of the specification |
| CarryReaddir.DirHandle.Collect | examples_disabled/path_through.rs:270-323 | The carried entry and then the loop: buffer, handle, ending and the at-least-one flag are those of `Attempt` |
| CarryReaddir.DirHandle.Readdir | examples_disabled/path_through.rs:270-325 | The handler on an open handle computes `Call`: its state, and a buffer that the kernel walks back to the page, the error, or nothing |
| CarryReaddir.DirTable.ReaddirRequest | examples_disabled/path_through.rs:264-326 | READDIRPLUS and unknown handles are refused and change nothing; otherwise the handle is read as `Call` says |
| DirEntries.AlignedBitsIsRounding | src/reply.rs:322-325 | The bit trick rounds up to the next multiple of 8 |
| DirEntries.WalkOneRecord | crates/polyfuse-kernel-systest/include/fuse_kernel.h:1046-1061 | The kernel's walk reads one record back and continues behind its padding |
| DirEntries.WalkOfPacked | src/reply.rs:278-320 | Walking a packed buffer gives back exactly the packed entries, in order |
| DirEntries.FittingIsMaximal | src/reply.rs:278-320 | A front of the entries fits the page if and only if it is no longer than what the page takes |
| DirEntries.TypeCodes | src/reply.rs:294-304 | The `d_type` number of every file type, and 0 for none |
| DirEntries.AnyPushesWalkBack | src/reply.rs:267-320 | After any pushes the buffer is within capacity, 8-aligned, and walks back to exactly the accepted entries |
| DirEntries.DirEntryBuf.constructor | src/reply.rs:272-276 | A new buffer is empty |
| DirEntries.DirEntryBuf.PushEntry | src/reply.rs:278-320 | An entry is refused if and only if its padded record does not fit, and then nothing changes; otherwise its record is appended |
| DirEntries.PushAll | src/reply.rs:267-320 | Pushing any entries one after the other leaves exactly the entries and bytes of `Accepted` in the buffer |
| Framing.PipeReceiveIsolates | src/buf.rs:217-240 | The pipe buffer accepts exactly the well-formed messages, whatever it held before, and then header, argument and pipe are the message |
| Framing.PipeCutsByOpcode | src/buf.rs:117-240 | By the opcode alone: complete messages are accepted, with the whole body as argument for every opcode of the enumeration but WRITE and NOTIFY_REPLY, the first 40 bytes for those two, and none for any other number |
| Framing.VecCutsByOpcode | src/buf.rs:117-270 | The vector buffer accepts complete messages it can hold and cuts them in the same way |
| Framing.PipeErrors | src/buf.rs:208-223 | A device error and the failure to create a pipe come through as they are |
| Framing.ArgLenByOpcode | src/buf.rs:117-127 | The argument length by opcode number: 40 for WRITE and NOTIFY_REPLY, the whole body for the rest of the enumeration, 0 for any other number |
| Framing.FramingIsolation | src/buf.rs:199-240 | Over any run of receives, failures and partial payload reads, header, argument, payload read and payload left are the last accepted message: no byte of another request |
| Framing.VecSplitInRange | src/buf.rs:183-195 | `split_at` never panics in a buffer that can hold a write header |
| Framing.BuffersAgree | src/buf.rs:183-270 | On a well-formed message both buffers yield the same header and argument, and the pipe's payload is the front of the vector's |
| Framing.VecIsolatesIff | src/buf.rs:250-270 | When the vector buffer accepts, header and argument come from the message if and only if it is well-formed |
| Framing.HeaderOnlyWriteAccepted | src/buf.rs:250-270 | A write request of only a header is accepted by the vector buffer, with an argument of earlier bytes, and refused by the pipe buffer |
| Framing.HistoriesAgree | src/buf.rs:183-270 | Two buffers driven by the same history agree after every well-formed message |
| RequestBuffers.Pipe.SpliceTo | src/io.rs:36-46 | What leaves the pipe is its front, and the tracked length stays right |
| RequestBuffers.Pipe.SpliceFrom | src/io.rs:49-59 | What arrives is appended, and the tracked length stays right |
| RequestBuffers.Pipe.Read | src/io.rs:62-72 | Reading takes the front of the pipe and makes progress when there is something |
| RequestBuffers.Pipe.ReadExactly | src/buf.rs:228-237 | Reading until full or dry takes exactly the asked-for front or all there is, however the system portions it |
| RequestBuffers.Pipe.SpliceRead | src/io.rs:105-111 | Splicing between pipes moves a front to the end of the other and conserves all bytes and both lengths |
| RequestBuffers.Pipe.SpliceWrite | src/io.rs:134-145 | The same in the other direction |
| RequestBuffers.PipeBuf.Reset | src/buf.rs:208-215 | A pipe believed non-empty is replaced by a new one, else kept |
| RequestBuffers.PipeBuf.TryReceive | src/buf.rs:217-240 | The in-place receive computes `PipeReceive`, and on success header, argument and pipe hold the message |
| RequestBuffers.VecBuf.TryReceive | src/buf.rs:250-270 | The vectored read into header and array computes `VecReceive`, stale bytes included |
| ByteTree.SizeIsLength | src/bytes.rs:108-470 | `size()` is the length of the data |
| ByteTree.ZeroCountIsEmpty | src/bytes.rs:473-487 | The zero-count shortcut skips only empty data |
| ByteTree.FillWriteBytes.Put | src/bytes.rs:535-545 | One put initialises the next slot and no other |
| ByteTree.FillBytes | src/bytes.rs:108-470 | `fill_bytes` makes exactly `count()` puts whose chunks, in order, are the data, and leaves earlier slots alone |
| ByteTree.FillParts | src/bytes.rs:125-235 | The same for tuples, arrays, slices and vectors |
| ByteTree.WriteBytes | src/bytes.rs:473-533 | Exactly one vectored write, of `count()` initialised slices that make up the data, or none for count 0; success if and only if all was taken |
| Messages.MessageRoundTrip | src/msg.rs:20-38 | The kernel reads a reply under the number of its request with the negated error number or 0, a notification under number 0 with its code, and the body unchanged |
| Messages.InterruptedReply | src/msg.rs:52-71 | The header of the reply to request 42 with EINTR, byte by byte |
| Messages.SendMsg | src/msg.rs:20-38 | A body too long for 32 bits is refused before anything is written; otherwise one write that the kernel reads back as reply or notification, and success if and only if the system took all of it |
| Messages.Session.HandleReplyError | src/session.rs:142-152 | ENOENT and ENODEV become success, ENODEV also ends the session, other errors stay |
| Messages.Session.Send | src/session.rs:187-200 | Success if and only if the system took the whole message or says that nobody is left to read it |
| Messages.InvalEntryArrivesWhole | src/session.rs:231-245 | If the notification is written at all, the kernel reads parent and whole name, despite the truncating cast |
| Messages.DeleteArrivesWhole | src/session.rs:247-262 | The same for parent, child and name |
| Messages.StoreArrivesWhole | src/session.rs:264-281 | The same for inode, offset and content |
| Messages.NotifyInvalEntry | src/session.rs:212-245 | One write that parses to the notification, or EINVAL and none; success if and only if all was taken or nobody is left to read it |
| Messages.NotifyDelete | src/session.rs:247-262 | The same for delete |
| Messages.NotifyStore | src/session.rs:264-281 | The same for store |
| Init.TimeGranIsLargestPower | src/init.rs:450-459 | The time granularity is the largest power of ten not above the request |
| Init.RequestBufferFits | src/session.rs:51-55 | The request buffer reaches the kernel's minimum and holds a write of any size up to the `max_write` that the kernel was told |
| Init.LimitsRespected | src/init.rs:423-481 | Read-ahead, write size, page limit, threshold and stack depth are the numbers within their bounds nearest to what was asked for; limits newer than the negotiated version have their defaults |
| Init.DocumentedWriteCapIff | src/init.rs:41-52 | `max_write` stays within the documented 32 pages if and only if the requested size, raised to the minimum, does |
| Init.WriteCapExceeded | src/init.rs:41-52 | A concrete negotiation without MAX_PAGES that grants 64 pages |
| Init.OldKernelBufferIff | src/init.rs:413-416 | For a kernel older than 7.4 the buffer reaches the minimum if and only if the configured maximum does |
| Init.OldKernelKeepsConfig | src/init.rs:413-416 | For a kernel before 7.4 only the version is settled |
| Init.DefaultThresholdIff | src/init.rs:436-448 | The threshold never exceeds the maximum, and the default is three quarters of it if and only if the 16-bit product does not wrap |
| Init.ThresholdWraps | src/init.rs:436-448 | For `max_background` 65535 the default threshold is 16383, not 49151 |
| Init.VersionRule | crates/polyfuse-kernel-systest/include/fuse_kernel.h:249-267 | Negotiation succeeds exactly for major version 7, settles on the smaller minor version, and refuses larger and smaller major versions with their own errors |
| Init.NegotiatedFits | src/init.rs:397-481 | A negotiated configuration fits the fields of the reply |
| Init.NegotiateIdempotent | src/init.rs:399-484 | Negotiating the settled configuration again changes nothing |
| Init.DefaultNegotiated | src/init.rs:501-528 | What the default configuration becomes against a newer kernel that offers everything |
| Init.FlagsAreAgreed | src/init.rs:418-421 | A flag is on if and only if it is offered, asked for or always on, and passthrough only without writeback cache since 7.40 |
| Init.LowWordRoundTrip | src/init.rs:98-136 | The first flag word carries exactly the low 32 flags |
| Init.HighWordRoundTrip | src/init.rs:98-136 | The second carries exactly the high ones |
| Init.ReplyTellsConfig | src/init.rs:98-136 | Field by field, at the offsets of `fuse_init_out`, the kernel is told the session's configuration: the version always, the next six fields since 7.4, the rest since 7.23 |
| Init.FlagsReadIff | crates/polyfuse-kernel-systest/include/fuse_kernel.h:63-67 | The kernel reads the session's flags from the reply if and only if the reply can carry them: none before 7.5, high ones only in the long reply under INIT_EXT |
| Init.FlagsAgree | src/init.rs:399-484 | With the default minor version and a kernel that uses the second word under INIT_EXT, it does |
| Handshake.FromBytesInvertsEncode | src/init.rs:342-354 | The INIT of every kernel but 7.4 and 7.5 is read back as that kernel meant it, whatever follows |
| Handshake.FromBytesIff | src/init.rs:342-354 | By the layouts of the kernel header an INIT is read back if and only if its version is not 7.4 or 7.5, and is otherwise not read at all |
| Handshake.UnreadInitFails | src/connect.rs:45 | Connecting to such a kernel fails with EINVAL and answers nothing |
| Handshake.HandshakeSettles | src/connect.rs:28-104 | The session's configuration is the initial one negotiated with the first INIT of major version 7, after one answer per earlier INIT |
| Handshake.ConnectedSettled | src/connect.rs:28-104 | And a handshake that connects does so at such an INIT |
| Handshake.HandshakeFails | src/connect.rs:28-104 | The first turn that is neither passed over nor accepted ends the handshake with the device's error, EINVAL or EIO, after one answer per earlier INIT |
| Handshake.HandshakeWaits | src/connect.rs:28-104 | While every turn is passed over the loop goes on, having answered each INIT |
| Handshake.AnswersAreInOrder | src/connect.rs:28-104 | Whatever the outcome, the answers are to the INIT requests in order, at most one each |
| Handshake.KernelConfig.Update | src/init.rs:399-484 | The assignments compute the negotiated configuration, and a refused INIT leaves it alone |
| Handshake.Connect | src/connect.rs:28-104 | The loop computes the handshake's outcome and exactly its answers, the downgrade reply with version 7.44 and nothing else included |
| Operation.TakeStrIff | src/op/decoder.rs:47-58 | A string is fetched if and only if the bytes are that NUL-free name, a NUL, and the rest |
| Operation.TakeStrOutcome | src/op/decoder.rs:47-58 | A name is read if and only if there is a NUL, and takes exactly one off |
| Operation.DecodeOutcome | src/op.rs:99-570 | For any argument of a modelled request: which error, by what is missing first (struct, name, counted tail, node id), and otherwise a request of that opcode and node |
| Operation.DeclaredBitsComeThrough | src/op.rs:219-412 | Whatever bits the words of the struct have, exactly the declared flags come through, and a lock owner exactly with its flag |
| Operation.Decoder.FetchBytes | src/op/decoder.rs:15-26 | The cursor moves by the bytes fetched, or not at all on an error |
| Operation.Decoder.FetchStr | src/op/decoder.rs:47-58 | Scanning finds the first NUL; the cursor stands behind it, or stays on an error |
| Operation.ForgetsRoundTrip | src/op.rs:125-133 | Batch items are read back in order |
| Operation.BatchForgetRoundTrip | src/op.rs:125-133 | A batch forget is decoded to its items, whatever their node ids |
| Operation.NamesRoundTrip | src/op.rs:154-439 | Lookup, symlink, unlink, rmdir and removexattr are decoded to what the kernel encoded |
| Operation.MknodRoundTrip | src/op.rs:219-241 | The same for mknod, in the layout of either version |
| Operation.MkdirRoundTrip | src/op.rs:243-252 | The same for mkdir, whose mode is cut to the permission, set-id and sticky bits |
| Operation.RenameRoundTrip | src/op.rs:270-281 | The same for rename |
| Operation.Rename2RoundTrip | src/op.rs:283-294 | The same for rename2, flags included |
| Operation.LinkRoundTrip | src/op.rs:296-304 | The same for link |
| Operation.WriteRoundTrip | src/op.rs:330-357 | The same for write, in the layout of either version |
| Operation.SetxattrRoundTrip | src/op.rs:386-412 | The same for setxattr, extended or not |
| Operation.GetxattrRoundTrip | src/op.rs:414-422 | The same for getxattr |
| Operation.CreateRoundTrip | src/op.rs:560-570 | The same for create in the layout of 7.12 and later, whatever the open flags |
| Operation.OldCreateIsMisread | crates/polyfuse-kernel-systest/include/fuse_kernel.h:94-95 | No create in the layout before 7.12 is decoded to what was encoded |
| Operation.DecodeInvertsEncode | src/op.rs:99-570 | For the sixteen modelled requests (lookup, forget, batch forget, symlink, mknod, mkdir, unlink, rmdir, rename, rename2, link, write, setxattr, getxattr, removexattr, create) decoding inverts the kernel's encoding, whatever follows, if the decoder supports the layout |
| Operation.RecoversIff | src/op.rs:99-570 | Such a request is recovered from its argument if and only if it is not a create under a minor version below 12 |
| Operation.LayoutsAgreeIff | src/op.rs:386-412 | Both sides use the same layouts if and only if the session does not carry SETXATTR_EXT under a minor version from 5 to 32 |
| Operation.LayoutsDiffer | src/op.rs:386-412 | Every negotiation with a kernel that offers SETXATTR_EXT and that settles on 7.5 to 7.32 ends with different setxattr layouts on the two sides |
| Operation.ExtendedSetxattr | src/op.rs:386-399 | What the decoder makes of an extended setxattr without extra flags: an empty name, and the value read eight bytes early |
| Operation.SetxattrIsMisread | src/op.rs:386-399 | In every such session a setxattr is decoded as it was meant if and only if it sets an empty name, without extra flags, to zeros |
| Operation.SessionsDecode | src/op.rs:99-570 | After a negotiation with a kernel that offers SETXATTR_EXT only since 7.33, one of the sixteen modelled requests decodes to what the kernel encoded if and only if it is not a create under a minor version below 12 |
| RequestPath.DecodeNamed | src/op.rs:154-439 | The cursor-driven arms compute their specification: requests made of names |
| RequestPath.DecodeForget | src/op.rs:111-133 | Forget and batch forget |
| RequestPath.DecodeMknod | src/op.rs:219-241 | Mknod, both versions |
| RequestPath.DecodeMkdir | src/op.rs:243-252 | Mkdir, with the mode cut to its declared bits |
| RequestPath.DecodeRename | src/op.rs:270-294 | Rename and rename2 |
| RequestPath.DecodeLink | src/op.rs:296-304 | Link |
| RequestPath.DecodeWrite | src/op.rs:330-357 | Write, both versions |
| RequestPath.DecodeSetxattr | src/op.rs:386-412 | Setxattr, both forms |
| RequestPath.DecodeGetxattr | src/op.rs:414-422 | Getxattr |
| RequestPath.DecodeCreate | src/op.rs:560-570 | Create |
| RequestPath.DecodeRequest | src/op.rs:99-570 | The dispatch on the opcode computes `Decode` with the session's layout, for the sixteen modelled requests |
| RequestPath.CurrentWriteArrives | src/buf.rs:117-127 | With the current layout the pipe's argument is the write header and its payload the data |
| RequestPath.OldWriteDoesNotArrive | src/buf.rs:117-127 | With the layout before 7.9 sixteen bytes of data are cut off as argument |
| RequestPath.WriteArrivesIff | src/buf.rs:117-127 | Operation and payload arrive intact if and only if the kernel's minor version is at least 9 |
| RequestPath.RequestArrivesIff | src/buf.rs:117-127 | From the message through the pipe buffer and the decoder, each of the sixteen requests arrives intact, payload included, if and only if it is neither a create below 7.12 nor a write below 7.9 |
| RequestPath.InitArrivesIff | src/connect.rs:28-45 | An INIT message goes through the vector buffer with its whole body as argument, and is read as it was meant if and only if its version is not 7.4 or 7.5 |
| RequestPath.OpcodesAreKnown | crates/polyfuse-kernel/src/lib.rs:311-366 | The modelled requests have the numbers of the enumeration |
| RequestPath.ZeroItemPanics | src/op.rs:694-699 | A batch with an item for node 0 is decoded as sent, and the file system panics on it |
| RequestPath.HugeWritePanics | src/op.rs:344-357 | Every write that ends at 2^63 or beyond is decoded as sent, and the file system panics on it |

## Left out

- Mounting, the `fusermount` protocol, device ioctls and descriptor passing: system calls with no logic to prove.
- Locks and threads: a request is one atomic step. Self-deadlocks of the sharded map (a directory that names itself) are not modelled; linking an inode into itself is a panic, as its `debug_assert` says.
- Attributes other than `ino`, `nlink` and `size`, extended attributes, `setattr`, `getattr`, `readlink`, and open or flush of files: handlers with one branch each.
- The `polyfuse::fs` layer: replies are return values, and `ReaddirOut` is taken to be `DirEntryBuf`.
- The `offset` counter of a directory handle in memfs, which nothing reads.
- The `..` entry after a rename across directories: it stays the old parent, as in the source, and no claim is made about it.
- MemFsLookups.CountersFit: the model's counters are unbounded; this lemma says for how long that makes no difference.
- What happens after a panic: the source's poisoned locks, by which every later request of the pass-through file systems panics too, and what a release build has already grown when a write range wraps around.
- Running out of memory, which aborts the process, and machines with other than 64-bit addresses.
- A source inode numbered 0, which the path-based readdir unwraps: taken not to occur.
- Operation.SessionsDecode: says nothing of kernels of 7.4 and 7.5, with which no session starts.
- Operating the source directory itself in the pass-through file systems (open, stat, hard links on disk): their answers are parameters, and so is what becomes of the reply.
- Init.DefaultThresholdIff: 16-bit arithmetic wraps as in a release build; a debug build would panic instead.
- Init.RequestBufferFits: asks for a page size from 32 bytes to 16 MiB, outside of which the source's own bounds cross or its cast truncates.
- Kernel flags are sets of bit positions, with lemmas for the words on the wire.
- Operation.DecodeInvertsEncode: leaves out the requests whose argument is empty or one struct without a name: interrupt, notify reply, getattr, setattr, readlink, open, read, release, statfs, fsync, listxattr, flush, opendir, readdir, releasedir, fsyncdir, the lock requests, access, bmap, fallocate, copy_file_range, poll and lseek. `Decode` answers `None` for them; they would only add easy members. The decoder has one layout for each, so kernels before 7.9, where getattr and read were shorter, are not covered.
- Pointer alignment of decoded structs (the `Unaligned` error), and the machine's byte order, taken as little-endian.
- `Vec::with_capacity` and pipe capacities: exactly what was asked for.
- ByteTree.WriteBytes: the stack array for few slots and the heap array for many are one array.
- `retrieve` and `recv_request`: a counter and a match.
