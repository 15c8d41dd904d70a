# Gitility, verified

A Dafny model of the algorithms at the centre of Gitility, a snapshot-pinned
Git query engine: its weighted LRU and the caches built on it, the commit
walks and the replay-based pagination of `log`, `history` and `search`, the
continuation cursors, the tree and pathspec transformations behind search and
diff, the provider rendezvous, crash-safe pack hydration, budget accounting,
and the `.gitmodules` parser. `dafny verify dfyconfig.toml` checks everything.

Code that mutates state keeps its form: the caches, walks, projector, parser,
budget and pack store are classes, and loops are methods proved against
specification functions whose properties are then proved as lemmas. Protocols
(rendezvous, atomic charges) are explicit step relations with inductive
invariants over every interleaving.

Files by source: `Cursor` and `CheckValue` (cursor.rs), `RefCodec` (refs.rs),
`Recency` and `Lru` (lru.rs), `LayeredOdb` (layered_odb.rs), `CommitGraph`,
`OrderedWalk`, `ChronologicalWalk`, `OrderedPruning`, `OrderedSelection`,
`Paging`, `Log`, `FirstParent` and `CommitCursors` (log.rs), `PathHistory`
(path_history.rs), `LiteralScan`, `LineSpans`, `PayloadScan`, `BlobWalk` and
`Search` (search.rs), `Trees` (tree.rs), `Pathspec` (pathspec.rs), `Projection`
(diff.rs), `Rendezvous` and `ProviderReplies` (provider_odb.rs), `Hydration`
(packfetch.rs), `Charges` and `Budget` (budget.rs), `GitConfig`, `ConfigNames`
and `EndMarks` (git_config.rs), `Basics` (shared types).

The main theorems:

- **LRU.** `Lru.LruCache` (slab, free list, linked list, index map) refines a
  recency sequence; insertion evicts the shortest old prefix that makes room.
  The 64-bit weight counter stays exact on every run if and only if the
  capacity is below 2^64 - 1 (`Recency.AccountedIffBelowCeiling`). Over every run
  entries stand in the order of their keys' last use (`Recency.RunByLastUse`), so
  what goes was unused for longest.
- **Layered store.** Batch reads answer as if there were no cache, at any cache
  position and bounds (`LayeredOdb.LayeredOdb.TryFindManyBounded`).
- **Ordered walk.** On any finite parent graph, cycles included, exactly the
  reachable commits come out once, children first, and what is on or behind a
  cycle comes last by descending ID (`OrderedWalks.OrderedWalkCorrect`). Date
  order takes a newest commit whose children are out, topological order follows a
  line of history as long as it can (`OrderedSelection`).
- **The log on stored commits.** For every order the unpaged log holds exactly
  the commits in bounds that a path of followed parents leads to
  (`FirstParents.UnpagedLogIs`), and first-parent history is the chain of first
  parents (`FirstParents.FirstParentLog`).
- **`since` pruning.** It is invisible in the chronological order if and only if
  every reachable recent commit stays reachable, which is so when no parent is
  newer than its child; in the other two orders it is invisible when no old
  commit has a recent parent, and reachability alone is not enough.
- **Pagination.** Concatenated pages equal the unpaged result for every log
  order, for history with rename retargeting, and for search under any limits,
  byte ceilings and scan-cache capacities; followed cursors, as bytes, are
  never rejected.
- **Cursors.** `decode` accepts exactly the encodings, inverts them, and rejects
  every single-byte corruption; base-215 packing and unpacking are inverses and
  215^32 < 256^31 keeps the final carry zero.
- **Trees.** The blob walk yields exactly the selected files, in strictly
  increasing byte order, and search exactly their matching lines; the
  memoised projection, read through the projected map, flattens to the filtered
  original, if and only if no nameless root directory is wrongly pruned.
- **Protocols.** A reply slot gets at most one message and no waiter depends on
  a dead provider; a crash at any file step of hydration leaves no mixed pair,
  exactly unless a pack was published beside an index that failed to go, and
  every index left by a hydration stores the hash of the pack body beside it;
  granted charges stay under a ceiling exactly up to an attempted total of 2^64,
  and a job without replays succeeds exactly when its visits and distinct bytes
  fit (`Budgets.FreshJobIff`).
- **Config parser.** Printed documents are read back exactly, unquoted values
  lose exactly their outer space, CRLF line ends and the case of section names
  and keys never matter, and no input yields upper case outside a subsection.

Where documentation and code differ, the code is modelled. The config parser's
comment says byte 0xff is indistinguishable from the end of input; in the code
it ends the current line and sets a flag, so an entry behind it can still be
visited (`EndMarks.EntryBehindMark`; `EndMarks.EndMarkIff` says exactly when it
acts as the end), after a CR it is swallowed, and after a backslash in a value
it is a continuation. The pathspec comment says pruning never rejects a subtree
the matcher could select; that holds exactly when the directory of every
matching path stays open (`Pathspec.SetPrunesSoundlyIff`, for one pattern
`Pathspec.PrunesSoundlyIff`), which an escaped byte can break
(`Pathspec.EscapedPatternIsPruned`). The charge comment says racing charges
never both succeed past the ceiling; that holds exactly up to a wrap of the
counter (`Charges.CeilingHoldsIffNoWrap`).

## Model

| member | source | states |
|---|---|---|
| `Cursors.CrcByteInjectiveAt` | crates/gitility-core/src/cursor.rs:177-187 | one CRC-32 byte step is injective in the register and in the byte |
| `Cursors.CrcFoldInjective` | crates/gitility-core/src/cursor.rs:177-187 | distinct registers stay distinct over any common input |
| `Cursors.CrcDetectsByteChange` | crates/gitility-core/src/cursor.rs:177-187 | changing any one byte of any input changes its CRC-32 |
| `Cursors.ComputeCrc32` | crates/gitility-core/src/cursor.rs:177-187 | the bitwise loop computes the reflected CRC-32 of the whole input |
| `CheckValues.CheckValue` | crates/gitility-core/src/cursor.rs:177-187 | the checksum of the ASCII digits 1 to 9 is 0xcbf43926, the published check value of CRC-32 |
| `CheckValues.CheckTrailer` | crates/gitility-core/src/cursor.rs:77-78 | the trailer holds that checksum lowest byte first |
| `Cursors.Encode` | crates/gitility-core/src/cursor.rs:50-80 | the appended buffer is the v1 envelope: header, length-prefixed fields, CRC trailer |
| `Cursors.Decode` | crates/gitility-core/src/cursor.rs:82-160 | accepts exactly the in-limit encodings of the expected identity and returns the encoded cursor; length is checked first, then the CRC |
| `Cursors.RoundTrip` | crates/gitility-core/src/cursor.rs:50-160 | an encoding is accepted if and only if it is within 4096 bytes, and it decodes to its own cursor only |
| `Cursors.CarriedUnique` | crates/gitility-core/src/cursor.rs:82-160 | an accepted byte string carries one cursor, so re-encoding gives back the same bytes |
| `Cursors.CorruptionRejected` | crates/gitility-core/src/cursor.rs:82-187 | no single-byte change of any encoding is accepted, for any expectation |
| `RefCodec.AlphabetByte` | crates/gitility-core/src/refs.rs:649-682 | total on the 215 ranks and inverse to the rank of a byte |
| `RefCodec.AlphabetRankInjective` | crates/gitility-core/src/refs.rs:649-661 | bytes of equal rank are equal |
| `RefCodec.BlockFits` | crates/gitility-core/src/refs.rs:565-594 | 215^32 < 256^31 |
| `RefCodec.MultiplyAdd` | crates/gitility-core/src/refs.rs:565-594 | one in-place digit step multiplies the 31-byte number by 215 and adds the digit, with every intermediate within 16 bits |
| `RefCodec.PackStep` | crates/gitility-core/src/refs.rs:565-594 | the carry out of every digit step of a block is zero |
| `RefCodec.PackBlock` | crates/gitility-core/src/refs.rs:565-594 | succeeds exactly on alphabet bytes, with the block's base-215 number |
| `RefCodec.UnpackBlock` | crates/gitility-core/src/refs.rs:596-647 | inverts packing, and fails exactly on numbers of 215^32 or more |
| `RefCodec.EncodeCompact` | crates/gitility-core/src/refs.rs:565-594 | succeeds exactly on packable names, with length, packed blocks and raw tail |
| `RefCodec.DecodeCompact` | crates/gitility-core/src/refs.rs:596-647 | accepts exactly the compact forms of names up to 4096 bytes and returns their name |
| `RefCodec.CompactInjective` | crates/gitility-core/src/refs.rs:565-647 | a compact form determines its name |
| `RefCodec.EncodeRefCursor` | crates/gitility-core/src/refs.rs:534-563 | every name of at most 4096 alphabet bytes gets a cursor of at most 4096 bytes, for both hash kinds |
| `RefCodec.DecodeRefCursor` | crates/gitility-core/src/refs.rs:509-532 | returns the name a reference cursor was made from and rejects every other envelope |
| `Recency.InsertEvictsShortestPrefix` | crates/gitility-core/src/lru.rs:77-116 | insertion evicts and counts the shortest oldest prefix that leaves room, and keeps the counter exact |
| `Recency.RunAccounted` | crates/gitility-core/src/lru.rs:53-204 | over every run, keys are distinct and the counter is the true total within capacity |
| `Recency.SaturationHidesOverflow` | crates/gitility-core/src/lru.rs:77-116 | at capacity 2^64 - 1 two inserts make the counter wrong |
| `Recency.AccountedIffBelowCeiling` | crates/gitility-core/src/lru.rs:53-204 | every run keeps the counter exact if and only if the capacity is below 2^64 - 1 |
| `Recency.RunByLastUse` | crates/gitility-core/src/lru.rs:53-204 | after any run at any capacity, entries stand in the order of the last lookup or insertion of their keys, each with the value and weight it was last inserted with |
| `Recency.EvictedUnusedLongest` | crates/gitility-core/src/lru.rs:77-116 | whatever an insertion evicts was last used before whatever stays |
| `Recency.StepHolds` | crates/gitility-core/src/lru.rs:53-141 | a lookup loses no key, a pop the oldest one, a removal its own, clearing all |
| `Recency.LookupSavesEntry` | crates/gitility-core/src/lru.rs:53-116 | in two slots, looking up the older key saves it and the other is evicted |
| `Recency.BypassRemoves` | crates/gitility-core/src/lru.rs:77-83 | an entry heavier than the capacity, or any entry at capacity 0, only removes what its key held |
| `Lru.LruCache.constructor` | crates/gitility-core/src/lru.rs:40-51 | an empty recency sequence |
| `Lru.LruCache.Get` | crates/gitility-core/src/lru.rs:53-58 | the stored value, moved to the most recent end, which `Recency.RunByLastUse` makes least-recently-used order over every run; the representation stays valid |
| `Lru.LruCache.InsertCountingEvictions` | crates/gitility-core/src/lru.rs:77-116 | refines insertion on the recency sequence and returns the number of evictions |
| `Lru.LruCache.PopLru` | crates/gitility-core/src/lru.rs:118-122 | removes and returns the oldest entry |
| `Lru.LruCache.Remove` | crates/gitility-core/src/lru.rs:124-128 | removes the key wherever it is and returns its value |
| `Lru.LruCache.Clear` | crates/gitility-core/src/lru.rs:130-141 | empties the cache with every slot free once |
| `Lru.LruCache.Len` | crates/gitility-core/src/lru.rs:143-146 | the index map has one key per entry of the recency sequence |
| `Lru.LruCache.Touch` | crates/gitility-core/src/lru.rs:157-186 | relinking keeps one chain and moves the entry to the recent end |
| `Lru.LruCache.RemoveIndex` | crates/gitility-core/src/lru.rs:188-204 | unlinking an occupied slot drops exactly its entry; other slots change nothing |
| `LayeredOdb.ReadLayer` | crates/gitility-core/src/odb.rs:115-143 | a store's bounded batch read fails exactly when its own bytes exceed the bound |
| `LayeredOdb.CacheLayer.Get` | crates/gitility-core/src/layered_odb.rs:73-88 | lookup with recency update, keeping both bounds; over every run `LayeredOdb.CacheByLastUse` gives what the update means |
| `LayeredOdb.CacheLayer.Insert` | crates/gitility-core/src/layered_odb.rs:90-122 | entry and byte bounds hold after every insert; oversize objects bypass |
| `LayeredOdb.BoundedInserted` | crates/gitility-core/src/layered_odb.rs:90-122 | an insert keeps the bounds and adds no entry but its own |
| `LayeredOdb.StoredIs` | crates/gitility-core/src/layered_odb.rs:90-122 | an object within the size bounds becomes the most recent entry behind what is left once the shortest oldest prefix that leaves room in entries and bytes is gone |
| `LayeredOdb.OversizedIsNotStored` | crates/gitility-core/src/layered_odb.rs:90-94 | an object over either size bound changes nothing |
| `LayeredOdb.CacheByLastUse` | crates/gitility-core/src/layered_odb.rs:73-122 | after any lookups and stores, objects are held as stored, within both bounds, in the order of their last use |
| `LayeredOdb.FaithfulInserted` | crates/gitility-core/src/layered_odb.rs:90-122 | a cache that holds only lower layers' answers still does after caching one |
| `LayeredOdb.LayeredOdb.TryFindManyBounded` | crates/gitility-core/src/layered_odb.rs:295-371 | each position, duplicates included, gets the first holding layer's answer as if no cache existed, or the batch fails exactly when distinct payload bytes exceed the ceiling |
| `OrderedWalks.OrderedWalkCorrect` | crates/gitility-core/src/log.rs:450-583 | exactly the reachable commits, each once; children before parents, then exactly what is on or reachable from a cycle by descending ID; no residue without a cycle |
| `OrderedSelection.DateOrderPicksNewest` | crates/gitility-core/src/log.rs:523-570 | in date order, before any cyclic residue, every commit is one of the newest among those not yet emitted whose children all are |
| `OrderedSelection.TopologicalStaysOnLine` | crates/gitility-core/src/log.rs:523-570 | in topological order, before any cyclic residue, while a parent of the commit just emitted has all its children out, the next commit is one of its parents |
| `OrderedWalks.DiscoverReachable` | crates/gitility-core/src/log.rs:450-521 | the pre-pass finds exactly the reachable commits, each once |
| `OrderedWalks.Prepass` | crates/gitility-core/src/log.rs:450-521 | the stack loop computes that discovery order, or names a missing commit |
| `OrderedWalks.CountChildren` | crates/gitility-core/src/log.rs:450-521 | counts every child edge, repeated parents included |
| `OrderedWalks.StepInv` | crates/gitility-core/src/log.rs:523-583 | every step keeps the invariant: counts are the edges from commits not yet emitted, and what is queued has none |
| `OrderedWalks.OrderedWalk.constructor` | crates/gitility-core/src/log.rs:450-521 | the initial state of the walk with its invariant |
| `OrderedWalks.OrderedWalk.Next` | crates/gitility-core/src/log.rs:523-583 | emits the next commit of the output; every parent has a count, so the lookup never fails |
| `OrderedWalks.OrderedWalk.Advance` | crates/gitility-core/src/log.rs:523-583 | one pop from the ready queue or the residue, as the state machine prescribes |
| `OrderedWalks.OrderedWalk.PopReady` | crates/gitility-core/src/log.rs:523-570 | pops the newest ready commit for date order, the last pushed otherwise, and releases its parents |
| `OrderedWalks.OrderedWalk.PopResidue` | crates/gitility-core/src/log.rs:571-584 | computes the residue once as everything not emitted and pops its largest ID |
| `OrderedWalks.OrderedWalk.Release` | crates/gitility-core/src/log.rs:523-548 | decrements the parents' counts and queues those that reach zero |
| `OrderedWalks.OrderedWalk.HasMatching` | crates/gitility-core/src/log.rs:585-590 | true exactly when an in-bounds commit is still to be emitted |
| `CommitGraph.StuckIsFromCycle` | crates/gitility-core/src/log.rs:571-583 | a set whose every member has a child in the set lies on or behind a cycle |
| `CommitGraph.OrderedIsNotFromCycle` | crates/gitility-core/src/log.rs:523-548 | a commit emitted after all its children is on and behind no cycle |
| `CommitGraph.ViewParents` | crates/gitility-core/src/log.rs:613-654 | a walk goes from n to p if and only if n is stored, no shallow root and not older than `since`, and p is the first parent of n under `first_parent`, any listed parent otherwise |
| `CommitGraph.ViewKeeps` | crates/gitility-core/src/log.rs:613-654 | commits keep their times, and all parents in their order unless cut |
| `CommitGraph.ViewReaches` | crates/gitility-core/src/log.rs:613-654 | a commit is reached if and only if a path of such steps through the stored commits leads to it |
| `CommitGraph.BehindShallow` | crates/gitility-core/src/log.rs:647-652 | a reached commit other than the start has a reached child that lists it and is neither a shallow root nor older than `since` |
| `ChronologicalWalks.RestOnce` | crates/gitility-core/src/log.rs:369-406 | the priority walk emits every reachable commit exactly once |
| `ChronologicalWalks.TimesNeverIncrease` | crates/gitility-core/src/log.rs:369-406 | with no parent newer than its child, emitted times never increase |
| `ChronologicalWalks.SincePruningIff` | crates/gitility-core/src/log.rs:613-654 | clearing the parents of commits below `since` leaves the `since`-filtered output the same sequence if and only if every reachable commit not older than `since` is still reachable |
| `ChronologicalWalks.ParentsOlderKeepsRecent` | crates/gitility-core/src/log.rs:613-654 | that holds when no parent is newer than its child |
| `ChronologicalWalks.SincePruning` | crates/gitility-core/src/log.rs:613-654 | when no parent is newer than its child, pruning is invisible from any state and on incomplete stores too |
| `OrderedPruning.OrderedSincePruning` | crates/gitility-core/src/log.rs:613-654 | when no reachable commit older than `since` has a parent that is not, pruning is invisible in the topological and the date order as well, whatever order the pre-passes discovered the commits in |
| `OrderedPruning.OldChildReorders` | crates/gitility-core/src/log.rs:613-654 | reachability of the recent commits alone is not enough there: an old child that no longer holds back its parent reorders the topological output |
| `OrderedPruning.InitialIsStart` | crates/gitility-core/src/log.rs:488-495 | at most the start commit is ready at first, so the initial sort is moot |
| `ChronologicalWalks.ViewPrunes` | crates/gitility-core/src/log.rs:613-654 | the graph a `since` query sees is the unbounded one, pruned that way |
| `ChronologicalWalks.ClockSkewLosesCommit` | crates/gitility-core/src/log.rs:613-654 | a parent newer than its child can be lost to pruning, and the condition fails there |
| `ChronologicalWalks.ChronologicalWalk.Next` | crates/gitility-core/src/log.rs:369-406 | a pending error first, otherwise the next commit of the output |
| `ChronologicalWalks.ChronologicalWalk.PushParents` | crates/gitility-core/src/log.rs:369-406 | queues unseen parents and records the first missing one |
| `Paging.PagesFlatten` | crates/gitility-core/src/log.rs:127-223 | pages cut from a sequence by any positive limits are non-empty and concatenate to it |
| `Logs.WalkOutputOnce` | crates/gitility-core/src/log.rs:292-345 | every log order visits exactly the reachable commits, each once |
| `Logs.ResumeContinues` | crates/gitility-core/src/log.rs:127-223 | resuming at an emitted commit continues with exactly the matches after it |
| `Logs.Walk.Next` | crates/gitility-core/src/log.rs:292-320 | the next commit of either walk; on a complete store it never fails |
| `Logs.Walk.HasMatching` | crates/gitility-core/src/log.rs:322-345 | never claims a match when none in bounds remains |
| `Logs.Log` | crates/gitility-core/src/log.rs:99-223 | the page selected by cursor and limit from the unpaged walk, truncated exactly when an in-bounds commit remains; an unvisited position is an invalid cursor; `FirstParents.UnpagedLogIs` says what that walk holds of the stored commits |
| `Logs.LogPagesAreTheLog` | crates/gitility-core/src/log.rs:127-223 | for all orders, bounds and positive limits, followed pages are non-empty and concatenate to the unpaged log |
| `FirstParents.UnpagedLogIs` | crates/gitility-core/src/log.rs:99-223 | for all orders the unpaged log holds exactly the stored commits, with their own times, between `since` and `until`, that a path of followed parents without an earlier shallow root or old commit leads to |
| `FirstParents.FirstParentLog` | crates/gitility-core/src/log.rs:613-654 | with `first_parent` the walk begins at the start and each further commit is the first parent of the one before it: in the chronological order on every complete store, in the other two where no cycle is reached |
| `PathHistory.ChangedNext` | crates/gitility-core/src/path_history.rs:100-217 | replaying a prefix rebuilds the retargeted path and the position in the history |
| `PathHistory.History` | crates/gitility-core/src/path_history.rs:100-217 | the page selected by cursor and limit from the unpaged, rename-retargeted history |
| `PathHistory.HistoryPagesAreTheHistory` | crates/gitility-core/src/path_history.rs:100-217 | for any comparison function and positive limits, followed pages concatenate to the unpaged history |
| `PathHistory.HistoryFollows` | crates/gitility-core/src/path_history.rs:95-99 | history follows every listed parent of every stored commit that is no shallow root, whatever its time |
| `PathHistory.HistoryVisits` | crates/gitility-core/src/path_history.rs:100-217 | a history looks at exactly the commits such paths lead to |
| `CommitCursors.DecodeResume` | crates/gitility-core/src/log.rs:856-869 | accepts exactly the encoded commit positions and returns the encoded one |
| `CommitCursors.EncodedResumes` | crates/gitility-core/src/log.rs:200-218 | the cursor of a commit is within its size limit, accepted, and resumes there only |
| `CommitCursors.LogBytes` | crates/gitility-core/src/log.rs:99-223 | the page for cursor bytes, with its own position encoded; bytes that encode no position, or one the walk does not visit, are an invalid cursor |
| `CommitCursors.HistoryBytes` | crates/gitility-core/src/path_history.rs:59-217 | the same for path history |
| `CommitCursors.FollowLog` | crates/gitility-core/src/log.rs:99-223 | following cursor bytes with any positive limits never fails and reads the unpaged log in full pages |
| `CommitCursors.FollowHistory` | crates/gitility-core/src/path_history.rs:59-217 | following cursor bytes with any positive limits never fails and reads the unpaged history in full pages |
| `LiteralScan.LiteralOccurrences` | crates/gitility-core/src/search.rs:306-343 | for every window size the visits are the greedy leftmost non-overlapping occurrences, cut at the first stop request |
| `LiteralScan.ScanWindow` | crates/gitility-core/src/search.rs:306-343 | one window visits exactly the greedy occurrences starting in its core |
| `LiteralScan.GreedySkips` | crates/gitility-core/src/search.rs:306-343 | a stretch without occurrences can be skipped |
| `LineSpans.LineSpansOf` | crates/gitility-core/src/search.rs:852-874 | the chunked scan yields the lines of the payload |
| `LineSpans.SplitUnique` | crates/gitility-core/src/search.rs:852-874 | a payload has one split into lines, so the chunk size never matters |
| `PayloadScan.FirstOccurrence` | crates/gitility-core/src/search.rs:238-257 | the first occurrence of a literal query in a line, or none when there is none |
| `PayloadScan.ScanPayload` | crates/gitility-core/src/search.rs:815-850 | one match per line that holds an occurrence, in line order, with the column of the first one, a capped preview and clipped context; it fails only for payloads beyond 32 bits |
| `PayloadScan.ScanUnique` | crates/gitility-core/src/search.rs:815-874 | the matches do not depend on window or chunk sizes |
| `Trees.UnderOrdered` | crates/gitility-core/src/search.rs:660-698 | in Git order, every path under an earlier entry precedes every path under a later one |
| `Trees.LessIff` | crates/gitility-core/src/search.rs:660-698 | path order is byte order: the first difference decides, and an end comes before any byte |
| `Trees.GitModes` | crates/gitility-core/src/tree.rs:602-613 | the kinds of the five Git modes |
| `BlobWalks.BlobWalk.constructor` | crates/gitility-core/src/search.rs:634-658 | a new walk owes the depth-first listing of its root |
| `BlobWalks.BlobWalk.Next` | crates/gitility-core/src/search.rs:660-698 | the stack loop yields the next event of the depth-first listing |
| `BlobWalks.ListedInOrder` | crates/gitility-core/src/search.rs:660-698 | with distinct entries in Git order, listed paths strictly increase in byte order |
| `BlobWalks.ListedIff` | crates/gitility-core/src/search.rs:634-698 | the walk meets exactly the selected files, under their joined names, and the missing directories that a trail of stored directories leads to |
| `Searches.EmitMatches` | crates/gitility-core/src/search.rs:891-967 | collects the next matches until the limit or the byte ceiling, keeping an oversize first match; rejects an ordinal outside the file |
| `Searches.FitCursor` | crates/gitility-core/src/search.rs:969-1031 | keeps the longest non-empty prefix that fits with its cursor, and fails exactly when none does |
| `Searches.DecodeResume` | crates/gitility-core/src/search.rs:1033-1077 | accepts exactly the acceptable positions and returns the encoded path and ordinal |
| `Searches.ScanThroughCache` | crates/gitility-core/src/search.rs:455-581 | the scan cache is transparent at any capacity |
| `Searches.PassedPath` | crates/gitility-core/src/search.rs:429-445 | once the walk is past a path it never meets it |
| `Searches.SearchFinds` | crates/gitility-core/src/search.rs:365-624 | the unbounded search finds exactly the matching lines of the selected files that a trail of stored directories leads to |
| `Searches.ReachedFile` | crates/gitility-core/src/search.rs:429-445 | reaching the resumed file decides the position, and what is left is exactly what follows it |
| `Searches.Collect` | crates/gitility-core/src/search.rs:417-581 | the loop collects from the resume position and reports an invalid cursor only when the position is not a match |
| `Searches.Search` | crates/gitility-core/src/search.rs:365-624 | the one admissible page of what the cursor owes: truncated exactly when more is left than limit and ceiling allow, longest fit, over the ceiling only for a single oversize match; each failure has its reason, invalid scope and bounds exactly |
| `Searches.PageWithinCeiling` | crates/gitility-core/src/search.rs:113-140 | a page holds at most the limit, and its paths, lines and cursor together fit the ceiling unless it is one match too large by itself |
| `Searches.NextResumes` | crates/gitility-core/src/search.rs:969-1077 | a truncated page's own cursor is accepted and owes exactly the matches behind the page |
| `Searches.CursorAccepted` | crates/gitility-core/src/search.rs:1033-1077 | the cursor of an emitted match is always accepted and resumes at that match only |
| `Trees.JoinValid` | crates/gitility-core/src/tree.rs:615-685 | joining a name that `validate_tree_name` accepts to a path that `validate_path` accepts gives such a path |
| `Trees.SegmentRejected` | crates/gitility-core/src/tree.rs:615-685 | a path with an empty, dot or double-dot segment is not valid |
| `BlobWalks.ListedValid` | crates/gitility-core/src/tree.rs:540-561 | every path the walk finds passes `validate_path`, because every tree read validates its names |
| `Searches.FollowCursors` | crates/gitility-core/src/search.rs:417-581 | with any bounds per call, pages read so far are a prefix of the unbounded search, every truncated page makes progress, an untruncated one completes it, a followed cursor is never rejected, and every failure has one of the remaining reasons |
| `Pathspec.PrunesSoundlyIff` | crates/gitility-core/src/pathspec.rs:44-66 | one pattern never prunes a directory above a match if and only if it is literal, has no fixed directory, or its fixed directory overlaps the directory of every path the glob accepts |
| `Pathspec.SetPrunesSoundlyIff` | crates/gitility-core/src/pathspec.rs:25-66 | a whole matcher prunes soundly if and only if the directory of every matching path stays open |
| `Pathspec.PruningSound` | crates/gitility-core/src/pathspec.rs:25-66 | patterns that each prune soundly do so together |
| `Pathspec.UnescapedPrunesSoundly` | crates/gitility-core/src/pathspec.rs:44-66 | for an engine that takes unescaped bytes literally, no backslash in the fixed directory is enough |
| `Pathspec.EscapedPatternIsPruned` | crates/gitility-core/src/pathspec.rs:44-60 | an escaped slash before a metacharacter prunes a subtree that matches, and violates that condition |
| `Pathspec.LiteralSelects` | crates/gitility-core/src/pathspec.rs:73-84 | a literal pattern selects exactly its own path and everything beneath it |
| `Pathspec.GlobSelects` | crates/gitility-core/src/pathspec.rs:73-90 | a pattern with glob magic or a metacharacter selects what the engine matches |
| `Pathspec.LiteralOpens` | crates/gitility-core/src/pathspec.rs:44-66 | a literal pattern opens exactly the directories with a selected path beneath them |
| `Projection.PrunedHoldsNothing` | crates/gitility-core/src/diff.rs:997-1003 | a pruned subtree has no selected leaf at any depth |
| `Projection.NamelessTreeIsPruned` | crates/gitility-core/src/diff.rs:997-1003 | a root directory with an empty name is pruned although it holds a match |
| `Projection.ProjectionFilters` | crates/gitility-core/src/diff.rs:977-1022 | with a clear root, flattening the projection through the projected map is filtering the flattened original, in order, whatever the names below the root |
| `Projection.ProjectionFiltersIff` | crates/gitility-core/src/diff.rs:977-1022 | it is so if and only if no nameless root directory is pruned although it holds a selected leaf |
| `Projection.ServedGrows` | crates/gitility-core/src/diff.rs:1004-1009 | subtrees stay available while the projected map grows |
| `Projection.Projector.Serve` | crates/gitility-core/src/diff.rs:1008-1009 | without collisions `or_insert` files every child under its own ID |
| `Projection.Projector.ProjectTree` | crates/gitility-core/src/diff.rs:977-1022 | the memoised recursion computes the projection, and fails exactly when a tree it must read is missing |
| `Projection.ProjectDiffTrees` | crates/gitility-core/src/diff.rs:942-975 | succeeds exactly when every tree to be read is there; then both roots read back as their filtered originals through one shared map exactly when they are clear |
| `Rendezvous.StepKeepsInv` | crates/gitility-core/src/provider_odb.rs:129-341 | every step of requesters, replies, cancels and provider death keeps each sender in exactly one place |
| `Rendezvous.AtMostOneMessage` | crates/gitility-core/src/provider_odb.rs:129-158 | in every interleaving a slot gets at most one message, and a requester returns that one |
| `Rendezvous.LeftoversAreUnchecked` | crates/gitility-core/src/provider_odb.rs:241-290 | after a drain, a sender in the table belongs to a requester that has not passed the liveness check |
| `Rendezvous.NoWaiterDependsOnProvider` | crates/gitility-core/src/provider_odb.rs:241-341 | after a drain every waiter can return, or a thread already holds its sender |
| `Rendezvous.LateRequestersFail` | crates/gitility-core/src/provider_odb.rs:269-292 | a requester unchecked at the drain never waits in any continuation |
| `Rendezvous.DeathWakesEveryWaiter` | crates/gitility-core/src/provider_odb.rs:153-158 | with taken senders used and no foreign cancel, every waiter has exactly one message |
| `Rendezvous.PendingTable.Open` | crates/gitility-core/src/provider_odb.rs:285-287 | drawing an ID and its slot is the protocol's begin step |
| `Rendezvous.PendingTable.Insert` | crates/gitility-core/src/provider_odb.rs:130-132 | is the requester's insertion step, so the invariant of the protocol holds of the table |
| `Rendezvous.PendingTable.Reply` | crates/gitility-core/src/provider_odb.rs:134-146 | delivers exactly while the request is registered, as a take and a send that make this the slot's only message; otherwise no step at all |
| `Rendezvous.PendingTable.Cancel` | crates/gitility-core/src/provider_odb.rs:148-150 | is the withdrawal step: afterwards the request is not registered, so no reply delivers |
| `Rendezvous.PendingTable.FailAll` | crates/gitility-core/src/provider_odb.rs:153-158 | is one drain and one send per taken sender: every registered slot ends with exactly one failure and no other slot changes |
| `ProviderReplies.DecodeItems` | crates/gitility-core/src/provider_odb.rs:357-406 | accepts exactly distinct, requested, well-shaped items within size and byte limits |
| `ProviderReplies.RequestResults` | crates/gitility-core/src/provider_odb.rs:343-420 | accepts exactly sound, complete, affordable and verified replies, and maps exactly the requested objects |
| `Hydration.VerifiedPackUnique` | crates/gitility-core/src/packfetch.rs:1076-1130 | without collisions a pack ID has one verified pack |
| `Hydration.VerifiedIff` | crates/gitility-core/src/packfetch.rs:1076-1130 | verification accepts exactly a body with its hash, that hash as the pack ID, beside an index that ends in the same hash and the hash of everything before |
| `Hydration.IndexHasOnePack` | crates/gitility-core/src/packfetch.rs:1112-1117 | one index verifies for one pack ID only, and without collisions for one pack |
| `Hydration.DamagedPairFails` | crates/gitility-core/src/packfetch.rs:1076-1130 | without collisions no change of one byte in either file of a verified pair verifies |
| `Hydration.CrashLeavesNamed` | crates/gitility-core/src/packfetch.rs:544-668 | after a crash at any step of a safe run, a complete pair was there at the start or its index stores the hash of the pack body beside it |
| `Hydration.FetchArtifact` | crates/gitility-core/src/packfetch.rs:768-832 | the right length or nothing against any backend, and exactly the artifact when the backend serves it |
| `Hydration.SplitRanges` | crates/gitility-core/src/packfetch.rs:775-786 | consecutive ranges tile the artifact |
| `Hydration.PublishKeepsCrashSafe` | crates/gitility-core/src/packfetch.rs:1140-1204 | publishing a pack beside no index, or an index beside its own pack, mixes nothing |
| `Hydration.PackPublishIff` | crates/gitility-core/src/packfetch.rs:1140-1151 | publishing a pack keeps pairs unmixed if and only if no foreign index is beside it |
| `Hydration.CrashSafeIff` | crates/gitility-core/src/packfetch.rs:544-832 | a run whose published indexes verify with the pack beside them is crash-safe at every step if and only if no pack is published beside a foreign index |
| `Hydration.LeftoverIndexMixes` | crates/gitility-core/src/packfetch.rs:993-998 | an ignored failure to remove the old index plus a crash between the renames mixes a pair |
| `Hydration.NoMixTransitive` | crates/gitility-core/src/packfetch.rs:544-668 | interrupted hydrations that follow one another never mix either |
| `Hydration.PackFetchOdb.RemovePair` | crates/gitility-core/src/packfetch.rs:993-998 | removes both files, pack first, touching no other pair |
| `Hydration.PackFetchOdb.WritePairAtomically` | crates/gitility-core/src/packfetch.rs:1140-1204 | publishes both files, pack first; safe at every step into an empty place |
| `Hydration.PackFetchOdb.PlanHydration` | crates/gitility-core/src/packfetch.rs:678-741 | keeps exactly usable pairs, each index naming the pack beside it, clears the others, and never refetches a good pair |
| `Hydration.PackFetchOdb.FetchPair` | crates/gitility-core/src/packfetch.rs:617-652 | nothing is published unverified, a published index stores the hash of the pack body beside it, at most the described bytes are spent, and a backend that serves a verified pair is enough to succeed |
| `Hydration.PackFetchOdb.FetchPlanned` | crates/gitility-core/src/packfetch.rs:609-655 | success settles every planned pair; spending stays within the plan |
| `Hydration.PackFetchOdb.ProbeHydratedPacks` | crates/gitility-core/src/packfetch.rs:743-766 | succeeds exactly when every pair passes the probe; otherwise the first that fails is removed and leaves the verified set, and no other pair is touched |
| `Hydration.PackFetchOdb.Hydrate` | crates/gitility-core/src/packfetch.rs:544-668 | every published index verifies, so a run is crash-safe at every file step exactly when no pack meets a foreign index, and always while removals succeed; spends at most `max_hydration_bytes`, accepts only manifests with distinct digest-sized IDs, keys and sizes, leaves every pair present and verified, each index storing the hash of the pack body beside it, and fetches nothing from a good destination; against an honest backend it succeeds exactly when the bytes of the pairs not yet good fit |
| `Charges.ChargesStayUnderCeiling` | crates/gitility-core/src/budget.rs:395-409 | in every interleaving of add and compare steps, granted amounts never pass the ceiling while the attempted total is at most 2^64 |
| `Charges.WrapAroundOvercharges` | crates/gitility-core/src/budget.rs:395-409 | three charges totalling 2^64 + 1 are granted one more than the ceiling |
| `Charges.LargestCeilingOvercharges` | crates/gitility-core/src/budget.rs:395-409 | at the ceiling of an unlimited budget two charges totalling 2^64 are both granted |
| `Charges.ZeroGrantsNothing` | crates/gitility-core/src/budget.rs:395-409 | a zero ceiling grants only empty charges, however often the counter wraps |
| `Charges.CeilingHoldsIffNoWrap` | crates/gitility-core/src/budget.rs:395-409 | for every ceiling, the guarantee holds for a bound on the attempted total if and only if the ceiling is zero, the bound is below 2^64, or it is 2^64 and the ceiling is not the largest |
| `Budgets.Budget.ChargeObjectVisit` | crates/gitility-core/src/budget.rs:197-203 | counts an object unless charges are suspended, and refuses it over the ceiling, exactly as `Budgets.VisitsIff` says for a fresh job |
| `Budgets.Budget.ChargeObject` | crates/gitility-core/src/budget.rs:163-192 | size cap, then object count, then payload bytes, each under its own suspension; `Budgets.FreshJobIff` says exactly which jobs pass |
| `Budgets.Budget.Perform` | crates/gitility-core/src/budget.rs:208-270 | nested suspensions restore both depths, whether the work succeeds or fails |
| `Budgets.Budget.WithoutObjectCharge` | crates/gitility-core/src/budget.rs:208-243 | registers the object, suspends object charges (and payload charges when it was read before) around one read, and restores both |
| `Budgets.Budget.WithoutObjectRecharge` | crates/gitility-core/src/budget.rs:247-270 | suspends both kinds of charges around a replay and restores both |
| `Budgets.DepthsRestored` | crates/gitility-core/src/budget.rs:208-270 | the same for the specification, and the graph-read set only grows |
| `Budgets.ReplayIsFree` | crates/gitility-core/src/budget.rs:247-270 | replayed work spends neither objects nor payload bytes |
| `Budgets.ChargedAtMostOnce` | crates/gitility-core/src/budget.rs:208-243 | reads through the graph seam charge each object's bytes at most once |
| `Budgets.ChargedExactlyOnce` | crates/gitility-core/src/budget.rs:208-243 | without replays, oversize objects or a counter wrap, each object is read and charged exactly once |
| `Budgets.FreshJobSpends` | crates/gitility-core/src/budget.rs:163-270 | a fresh job that reads only through the seam spends at most the size of the distinct objects it visited |
| `Budgets.SuccessWithinCeilings` | crates/gitility-core/src/budget.rs:163-270 | any work that succeeds from counters within `max_objects` and `max_total_object_bytes` ends within both and read no object over `max_object_bytes` |
| `Budgets.DirectWorkIff` | crates/gitility-core/src/budget.rs:163-243 | work without replays succeeds if and only if no object is over the cap and its visits and its bytes, each seam object once, fit what is left under the ceilings, and then adds exactly those |
| `Budgets.FreshJobIff` | crates/gitility-core/src/budget.rs:163-243 | the same from fresh counters under ceilings below the largest one |
| `Budgets.VisitsIff` | crates/gitility-core/src/budget.rs:197-203 | a fresh job is granted n visits if and only if n is at most `max_objects`, or that is the largest ceiling, which refuses none |
| `GitConfig.Parser.NextChar` | crates/gitility-core/src/git_config.rs:252-283 | CRLF folds to LF, 0xff and the end read as LF and set the flag, as the character stream says |
| `GitConfig.Parser.ParseValue` | crates/gitility-core/src/git_config.rs:132-188 | quoting, escapes, comments, continuation and trimming as specified |
| `GitConfig.Parser.ParseSectionHeader` | crates/gitility-core/src/git_config.rs:190-207 | the dotted or quoted header as specified |
| `GitConfig.Parser.ParseQuotedSubsection` | crates/gitility-core/src/git_config.rs:209-249 | the quoted subsection as specified |
| `GitConfig.Parser.ParseEntry` | crates/gitility-core/src/git_config.rs:94-130 | one visit per accepted entry, none for a rejected one |
| `GitConfig.Parser.Parse` | crates/gitility-core/src/git_config.rs:51-92 | terminates on every byte string with the visits and verdict of the specification, whose names `ConfigNames.VisitedNames` describes |
| `GitConfig.ValueReads` | crates/gitility-core/src/git_config.rs:132-188 | a quoted, escaped value reads back unchanged |
| `GitConfig.SubsectionReads` | crates/gitility-core/src/git_config.rs:209-249 | a quoted subsection reads back unchanged |
| `GitConfig.UnquotedValue` | crates/gitility-core/src/git_config.rs:132-188 | an unquoted value loses exactly its leading and trailing space and keeps inner space |
| `GitConfig.CommentReads` | crates/gitility-core/src/git_config.rs:150-163 | everything after a comment character up to the line end is ignored |
| `GitConfig.DottedHeader` | crates/gitility-core/src/git_config.rs:190-207 | the legacy dotted header is lowercased as a whole: 32 is added to bytes 65 to 90 and nothing else changes |
| `GitConfig.RoundTrip` | crates/gitility-core/src/git_config.rs:51-283 | a printed document yields exactly its entries in order, 32 added to bytes 65 to 90 of section names and keys, subsection and value bytes unchanged |
| `GitConfig.CrlfParsesAlike` | crates/gitility-core/src/git_config.rs:252-274 | any input without CR parses the same with CRLF line ends |
| `ConfigNames.VisitedNames` | crates/gitility-core/src/git_config.rs:51-130 | whatever the input, a visited name is a key of lower-case letters, digits and hyphens behind nothing, a lower-case section name, or that and a subsection, cut at a NUL; no upper case outside the subsection |
| `ConfigNames.CaseParsesAlike` | crates/gitility-core/src/git_config.rs:51-249 | documents that differ only in the ASCII case of section names and keys parse alike |
| `ConfigNames.SubmodulePath` | crates/gitility-core/src/git_config.rs:51-249 | `Path` in `[Submodule "X"]` visits `submodule.X.path` |
| `GitConfig.UnknownEscape` | crates/gitility-core/src/git_config.rs:167-180 | in a value a backslash before anything but t, b, n, backslash, quote or line end fails the parse |
| `GitConfig.CommentLine` | crates/gitility-core/src/git_config.rs:51-75 | a line that starts with a hash or a semicolon is skipped |
| `GitConfig.BlanksSkipped` | crates/gitility-core/src/git_config.rs:104-106 | any run of spaces and tabs behind a key is skipped |
| `GitConfig.BareKey` | crates/gitility-core/src/git_config.rs:94-118 | a key alone on its line is visited without a value |
| `EndMarks.EntryBehindMark` | crates/gitility-core/src/git_config.rs:51-92 | `[a]x=1`, 0xff, `y=2` visits both entries, while the bytes before the 0xff give only the first |
| `EndMarks.QuietIff` | crates/gitility-core/src/git_config.rs:51-92 | with the end flag set, nothing more is visited and nothing fails if and only if only space stands before a line break, another 0xff, a comment or the end |
| `EndMarks.EndMarkIff` | crates/gitility-core/src/git_config.rs:51-283 | the first 0xff, unless a CR swallows it, parses like the end of the input if and only if it neither ends an entry with more than quiet behind it, nor stands behind an active backslash where going on changes the value, its verdict or what follows |
| `EndMarks.SwallowedMark` | crates/gitility-core/src/git_config.rs:252-274 | behind a CR the 0xff is swallowed, whatever surrounds it |
| `EndMarks.ValueMarked` | crates/gitility-core/src/git_config.rs:132-188 | a value ends at a 0xff as at the end of the input, except behind an active backslash, where it goes on with what follows |
| `EndMarks.ValueBehindMark` | crates/gitility-core/src/git_config.rs:168-181 | `[a]x=1`, a backslash, 0xff and `2` gives `x` the value `12`, and the bytes before the 0xff give `1` |

## Left out

- Budgets inside walks and search: cancellation, deadlines and object budgets are taken as always passing there, so pages truncated by them are not modelled.
- Logs.Log: states its page for stores that hold every reachable commit; for an incomplete store only which errors are possible.
- FirstParents.FirstParentLog: for the topological and date orders only where no cycle is reached, which content addressing ensures; behind a cycle `OrderedWalks.OrderedWalkCorrect` gives the order.
- PathHistory.History: the same restriction to complete stores as the log.
- EndMarks.EndMarkIff: a 0xff behind a CR is no mark at all; `EndMarks.SwallowedMark` says so for every input.
- Malformed trees: a tree with a name that `validate_tree_name` rejects counts as one the walk cannot read, like a missing tree.
- The `gix` crates: object decoding, wildmatch, merge bases, blob diffs, blame and rewrite similarity are abstract functions or absent.
- Regex search, regex limits and submatch previews: in `Search` a blob's scan is an arbitrary function of its ID with fewer than 2^32 - 1 matching lines; `PayloadScan` gives it for literal queries.
- Tree payload bytes: trees are lists of entries, so mode formatting and malformed payloads are not modelled, and `object_id` is an abstract function of the entries.
- Trees are assumed to nest finitely (a rank on object IDs), as content addressing ensures.
- `fnv1a_64` option fingerprints: a fingerprint is an arbitrary 64-bit value.
- RefCodec.DecodeRefCursor: takes the full-name validator as a parameter that bounds names to 4096 bytes.
- LayeredOdb.LayeredOdb.TryFindManyBounded: success implies the bound only for ceilings below 2^64 - 1, because a saturating total cannot exceed the largest one.
- Logs.Walk.HasMatching: for the chronological order on a complete store only the direction the page loop uses; the ordered walk's version is exact.
- Projection.ProjectDiffTrees: takes a matcher that prunes soundly; `Pathspec.SetPrunesSoundlyIff` says exactly which do.
- Wall-clock time, request timeouts and negative-cache expiry: a requester may give up at any step.
- Request IDs and queue sequence numbers are unbounded counters; their 64-bit wrap is not modelled.
- Error messages, line numbers of config errors, statistics fields and cache hit counts.
- `projected_destination_bytes` and the `max_bytes` check of memory destinations.
- Temporary files of hydration: a rename publishes complete bytes atomically; leftover temporary files are invisible to every reader.
- Files changed by other processes between hydrations: the verified set is then only as good as its size check, which is why `Hydration.PackFetchOdb.Hydrate` conditions verification on a sound set.
- Pack IDs are digests; the letter case of manifest ID strings is not modelled.
- Layered `prefetch`, `try_header` and `refresh`; provider caches; `provider_refs.rs`, `fetch.rs`, `repo_admin.rs`, `local_odb.rs`, `blame.rs`, `ancestry.rs`, `file.rs` and the runtime: they would add easier members or foreign calls.
