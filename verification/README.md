# PowerFS kernel client: a model in Dafny

PowerFS is a distributed file system; this project models the hard parts of its Linux kernel
client and proves what they guarantee.

- **Erasure coding** (`Fields`, `CyclicFields`, `Gf256`, `GfTables`, `LinearAlgebra`, `Elimination`,
  `ErasureCodec`): the GF(2^8) tables, Gauss-Jordan elimination in place, encoding and degraded
  decoding into shard buffers, for arbitrary encoding matrices.
- **Data layout** (`Arithmetic`, `Striping`, `Layout`, `Reload`, `Publish`, `InodeLayout`): from a
  file offset to a needle on a volume, publishing the chunk table, and rebuilding the base needles
  from it when a layout comes back from the server.
- **Writeback** (`Writeback`, `WbProtocol`, `WbThrottle`): dirty pages grouped into whole-needle and
  partial writes, the shared counter of worker and callbacks, and the limit on batches in flight.
- **Capabilities** (`CapBits`, `CapFlush`, `CapIssue`): dirty, flushing, issued and implemented bits
  while locks are dropped in the middle of operations.
- **Directories** (`DirCache`, `DirReader`, `InodePool`, `ReplayFilter`): the tombstoned entry list,
  refetching with epochs, reading by position, inode number batches and the invalidation filter.
- **Zeroing** (`Zeroing`): hole punching and extending, page by page.
- `Basics` has constants and small definitions that several modules use, `Machines` the runs of state
  machines that the capability and throttling models share.

Code that works in place is modelled by methods on arrays and classes. Concurrent code is modelled
by state machines in which each region under a lock is one step; network calls, memory and page
reads are an environment that succeeds or fails as it likes. Integers are unbounded and 32-bit and
64-bit wrap-around is written out where the code can meet it.

## Where the code does less than it says

Some promises do not hold of the code as written. For each the project has a concrete counterexample
and the exact condition under which the promise does hold.

- Initialising the erasure codec always fails, because powers of zero are zero even at exponent
  zero; and if the reduction succeeded, it would clear the parity rows (`Elimination.EcInit`,
  `Elimination.ToSystematic`, `ErasureCodec.Codec.ZeroParityRecoversNothing`).
- Striped addressing and reloading need a chunk size that divides the stripe size
  (`Layout.StripedAddressing`, `Reload.ReloadCondition`).
- Applying a layout with more volumes and no chunk list leaves too few base needles
  (`InodeLayout.Inode.ApplyLayout`, `InodeLayout.GrownWithoutChunks`).
- Flushing before publishing misses a volume that holds several chunks and has base needle zero, as
  reopening a short file leaves it (`Publish.StripedFlushCondition`, `Publish.ZeroBaseLosesFlush`).
- The published sizes add up to the file size only if the number of chunks is not zero in 32 bits
  (`Publish.BuildTable`, `Publish.HugeFileIsUncounted`).
- Writeback counts offsets on a needle in mebibytes, so that layout chunks must be whole pages and at
  most a mebibyte (`Writeback.ChunkSizeCondition`), and it takes along pages that cannot be located if
  they come after one that can (`Writeback.SubmitBatch`, `Writeback.MixedBatch`).
- A refused extent for which the counter has not been raised cleans a batch up too early; all other
  refusals are harmless (`WbProtocol.CleanupCondition`, `WbProtocol.RefusalCleansEarly`).
- A flush of an inline file loses the dirty bit of a write that lands between its copy and its
  success, and of one that is marked while no inline data is flagged; overlapping flushes are not
  needed for either (`CapFlush.DirtyBitsAreKept`, `CapFlush.LateWriteLosesBit`,
  `CapFlush.EarlyMarkLosesBit`).
- A refetch that breaks off buries the names on the pages that did not arrive
  (`DirCache.PartialRefetch`, `DirCache.LostPageBuries`).
- Refetches of two readers that overlap can bury a name that both have seen
  (`DirCache.OverlappingRefetches`, `DirCache.OverlapBuries`).
- A directory read that is cut inside a window can pass over entries (`DirReader.ReadingCondition`,
  `DirReader.CutLosesEntry`), and so can one during which another reader compacts the list
  (`DirReader.CompactionSkips`, `DirReader.CompactionLosesEntry`).
- Punching a hole and extending a file zero a whole edge page that is not cached and cannot be read
  (`Zeroing.PunchSpares`, `Zeroing.ExtendSpares`, `Zeroing.PunchLosesByte`, `Zeroing.ExtendLosesByte`).

## Model

| member | source | states |
|---|---|---|
| `Gf256.FullCycle` | powerfs_mod/powerfs_ec.c:27-44 | multiplying by x modulo 0x11d comes back to 1 after 255 steps |
| `Gf256.NoShortCycle` | powerfs_mod/powerfs_ec.c:27-44 | and not before: x has order exactly 255 |
| `Gf256.XGeneratesTheBytes` | powerfs_mod/powerfs_ec.c:27-44 | hence every nonzero byte is a power of x; the logarithm table is total |
| `CyclicFields.FieldOfIsField` | powerfs_mod/powerfs_ec.c:46-65 | multiplication through logarithms of a generator, with XOR as addition, satisfies all field laws and has inverses |
| `Gf256.ProductIsPolynomialProduct` | powerfs_mod/powerfs_ec.c:25-51 | that multiplication is the shift-and-add polynomial product modulo 0x11d, for all pairs of bytes |
| `GfTables.FillTables` | powerfs_mod/powerfs_ec.c:31-38 | the table loop stores the powers of x and their logarithms |
| `GfTables.RepeatExponents` | powerfs_mod/powerfs_ec.c:39-41 | the second loop repeats the exponents with period 255 |
| `GfTables.Tables.constructor` | powerfs_mod/powerfs_ec.c:27-44 | the tables that gf_init builds are exact: all 512 exponents, all 255 logarithms, and they compute in GF(2^8) |
| `GfTables.Tables.Times` | powerfs_mod/powerfs_ec.c:46-51 | table multiplication is the field product, zero included |
| `GfTables.Tables.Quotient` | powerfs_mod/powerfs_ec.c:53-59 | the quotient times the divisor gives the dividend back |
| `GfTables.Tables.Inverse` | powerfs_mod/powerfs_ec.c:61-65 | the inverse of a nonzero byte multiplies with it to one |
| `GfTables.Tables.Exponential` | powerfs_mod/powerfs_ec.c:67-74 | a zero base gives zero at every exponent, zero included; otherwise the result is the power exactly when the 32-bit product of logarithm and exponent does not wrap around |
| `GfTables.TableExponent` | powerfs_mod/powerfs_ec.c:67-74 | the reduced exponent after 32-bit wrap-around names the right power if and only if nothing wrapped |
| `LinearAlgebra.SwapKeepsSolutions` | powerfs_mod/powerfs_ec.c:303-311 | swapping two rows of the augmented matrix keeps its solutions |
| `LinearAlgebra.ScaleKeepsSolutions` | powerfs_mod/powerfs_ec.c:314-321 | scaling a row by a nonzero factor keeps its solutions |
| `LinearAlgebra.CombineKeepsSolutions` | powerfs_mod/powerfs_ec.c:323-336 | adding a multiple of one row to another keeps its solutions |
| `LinearAlgebra.SolvedIsInverse` | powerfs_mod/powerfs_ec.c:286-340 | when the left half has become the identity, the right half is the inverse |
| `LinearAlgebra.StuckIsDependent` | powerfs_mod/powerfs_ec.c:292-302 | a column without a pivot gives a nonzero vector that the original matrix maps to zero |
| `LinearAlgebra.ReducedIsIndependent` | powerfs_mod/powerfs_ec.c:286-340 | a matrix that reduces to the identity maps only zero to zero |
| `Elimination.FindPivot` | powerfs_mod/powerfs_ec.c:292-302 | the pivot search finds the first nonzero entry at or below the diagonal, or reports that there is none |
| `Elimination.SwapRows` | powerfs_mod/powerfs_ec.c:303-311 | the in-place row swap |
| `Elimination.ScaleRow` | powerfs_mod/powerfs_ec.c:314-321 | the in-place row normalisation |
| `Elimination.CombineRows` | powerfs_mod/powerfs_ec.c:323-336 | the in-place row elimination, in field arithmetic |
| `Elimination.NormalisePivot` | powerfs_mod/powerfs_ec.c:291-321 | after pivoting the diagonal entry is one and the solutions are unchanged |
| `Elimination.ClearColumn` | powerfs_mod/powerfs_ec.c:323-336 | after elimination the column is a unit column and the solutions are unchanged |
| `Elimination.ReduceColumns` | powerfs_mod/powerfs_ec.c:105-143 | for matrices of any size the column loop succeeds exactly when the columns are independent, and then reduces them to unit columns |
| `Elimination.Invert` | powerfs_mod/powerfs_ec.c:274-345 | for every n and every n-by-n matrix: 0 with a true two-sided inverse in place, and -EINVAL exactly when the matrix is singular |
| `Elimination.ToSystematic` | powerfs_mod/powerfs_ec.c:97-145 | 0 exactly when the columns are independent; then the first rows are the identity and every later row, parity rows included, is zero |
| `Elimination.Vandermonde` | powerfs_mod/powerfs_ec.c:81-89 | entry (r, c) is c, cut to a byte, to the power r, but column 0 is zero in every row, row 0 included |
| `Elimination.VandermondeIsDependent` | powerfs_mod/powerfs_ec.c:67-89 | hence the columns of that matrix are linearly dependent, whatever its size |
| `Elimination.EcInit` | powerfs_mod/powerfs_ec.c:149-205 | initialisation returns -EINVAL for every pair of shard counts, also where their 32-bit sum wraps around to a positive number |
| `ErasureCodec.MulAdd` | powerfs_mod/powerfs_ec.c:244-247 | one multiply-accumulate pass over a buffer |
| `ErasureCodec.CombineShards` | powerfs_mod/powerfs_ec.c:400-410 | clearing a shard and accumulating coefficient times source, with zero coefficients and absent sources skipped, leaves the linear combination of the sources |
| `ErasureCodec.CanRecover` | powerfs_mod/powerfs_ec.c:256-269 | true exactly when at least as many shards are available as there are data shards |
| `ErasureCodec.ScanShards` | powerfs_mod/powerfs_ec.c:378-383 | lists the available shards and the missing data shards, in order and completely |
| `ErasureCodec.BuildSubMatrix` | powerfs_mod/powerfs_ec.c:432-448 | row i is the row of the systematic matrix that produced the i-th available shard |
| `ErasureCodec.InverseRecovers` | powerfs_mod/powerfs_ec.c:459-492 | row m of the inverse applied to the first available shards of a codeword gives data shard m, byte for byte |
| `ErasureCodec.Codec.Encode` | powerfs_mod/powerfs_ec.c:216-252 | for every matrix and shard size: 0 exactly when all buffers are there, and then the shards are the codeword of the data; otherwise the parity shards before the first missing buffer are right |
| `ErasureCodec.Codec.RecoverData` | powerfs_mod/powerfs_ec.c:466-492 | every missing data shard is rebuilt from the available ones, which stay as they are |
| `ErasureCodec.Codec.RecoverParity` | powerfs_mod/powerfs_ec.c:497-521 | every missing parity shard is recomputed from the completed data shards |
| `ErasureCodec.Codec.AllocateMissing` | powerfs_mod/powerfs_ec.c:394-400 | missing buffers are allocated apart from all others; existing pointers stay |
| `ErasureCodec.Codec.RebuiltDataIsRight` | powerfs_mod/powerfs_ec.c:459-492 | if the available shards carry a codeword, what the inverse computes is the original data |
| `ErasureCodec.Codec.DecodeParity` | powerfs_mod/powerfs_ec.c:385-414 | with all data present, decoding completes the codeword |
| `ErasureCodec.Codec.DecodeData` | powerfs_mod/powerfs_ec.c:416-523 | with data missing: 0 exactly when the chosen rows are independent, and then the codeword is complete; otherwise nothing is touched |
| `ErasureCodec.Codec.Decode` | powerfs_mod/powerfs_ec.c:347-529 | for every matrix, shard size and loss pattern: 0 exactly on the recoverable patterns, -EBADMSG exactly when too few shards are left, nothing touched on failure, and if the available shards carry a codeword then after success all shards, data and parity, are that codeword |
| `ErasureCodec.Codec.ZeroParityRecoversNothing` | powerfs_mod/powerfs_ec.c:97-145 | with the zero parity rows that a successful reduction leaves, no pattern that loses a data shard is recoverable |
| `Striping.SlotDeterminesChunk` | powerfs_mod/powerfs_inode.c:222-230 | with aligned units the volume rank and the chunk on the volume determine the global chunk number, for any number of rounds |
| `Striping.AlignedIsExact` | powerfs_mod/powerfs_inode.c:222-230 | two offsets share volume and volume chunk exactly when they share a global chunk |
| `Striping.SplitPair` | powerfs_mod/powerfs_inode.c:200-230 | with misaligned units there is a pair of offsets, at the first split, for which this fails |
| `Striping.ExactnessCondition` | powerfs_mod/powerfs_inode.c:200-230 | for every geometry and limit: slots and chunks correspond one to one below the limit exactly when the chunk size divides the stripe size or the limit does not pass the first split |
| `Layout.NeedlesAreSlots` | powerfs_mod/powerfs_inode.c:222-242 | on distinct volumes two offsets reach the same needle exactly when they share a slot, 64-bit wrap-around of needle ids included |
| `Layout.StripedAddressing` | powerfs_mod/powerfs_inode.c:200-243 | a striped file gives every chunk a needle of its own, for all offsets, exactly when the chunk size divides the stripe size or no offset passes the first split |
| `Layout.FlatAddressing` | powerfs_mod/powerfs_inode.c:244-266 | a flat file without chunk table gives every chunk a needle of its own |
| `Reload.RebuildKeys` | powerfs_mod/powerfs_inode.c:609-625 | the rebuilding loop leaves, for each volume, the first nonzero base derived from its table entries |
| `Reload.EntryAgrees` | powerfs_mod/powerfs_inode.c:612-625 | with aligned units an entry's volume and base as rebuilt are the ones that addressing used |
| `Reload.RebuiltKey` | powerfs_mod/powerfs_inode.c:612-625 | a touched volume gets its base needle back, an untouched one gets zero |
| `Reload.ReloadRoundTrip` | powerfs_mod/powerfs_inode.c:599-629 | for any published list: all bases come back exactly when each volume is touched or has base zero |
| `Reload.DenseTableTouches` | powerfs_mod/powerfs_file.c:1174-1213 | a table of the first chunks touches a volume exactly when it reaches the volume's first unit |
| `Reload.MisalignedReload` | powerfs_mod/powerfs_inode.c:612-625 | with misaligned units the base rebuilt for the second volume comes from the first one |
| `Reload.ReloadCondition` | powerfs_mod/powerfs_inode.c:599-629 | a table that reaches every volume reloads to the same nonzero bases, whatever they are, exactly when units are aligned or there is one volume |
| `Publish.BuildTable` | powerfs_mod/powerfs_file.c:1164-1213 | entry k describes chunk k, ids are zero where locating failed, and the sizes add up to the file size, capped table or not, exactly when the chunk count is not zero modulo 2^32 |
| `Publish.HugeFileIsUncounted` | powerfs_mod/powerfs_file.c:1164-1166 | a file of 2^52 bytes in one-mebibyte chunks gets an empty table |
| `Publish.PublishedTableReloads` | powerfs_mod/powerfs_file.c:1174-1213 | reloading the table that was published gives back the writer's base needles |
| `Publish.CollectKeys` | powerfs_mod/powerfs_file.c:1242-1245 | the needles of a volume from an entry on, in order |
| `Publish.FlushAll` | powerfs_mod/powerfs_file.c:1221-1257 | the flush loop sends one flush per planned group and stops at the first that fails |
| `Publish.PlanCount` | powerfs_mod/powerfs_file.c:1230-1251 | a volume with a group has each live entry flushed once per occurrence, one without has none flushed |
| `Publish.FlushCondition` | powerfs_mod/powerfs_file.c:1221-1257 | every live entry is flushed exactly once exactly when the first entry on its volume is live |
| `Publish.PairedIdsFlush` | powerfs_mod/powerfs_file.c:1221-1257 | volume and needle ids that are zero together suffice for that |
| `Publish.PlacedFlushCondition` | powerfs_mod/powerfs_file.c:1164-1257 | for the published table of a file of any layout: every live entry is flushed exactly once if and only if no volume whose first chunk is placed at needle zero has a chunk at another needle |
| `Publish.StripedFlushCondition` | powerfs_mod/powerfs_file.c:1164-1257 | for a striped file whose units are at least a chunk long, aligned or not: exactly when each volume with a later chunk in the table has a nonzero base needle |
| `Publish.FlatFlushes` | powerfs_mod/powerfs_file.c:1164-1257 | the published table of a flat file is always flushed completely |
| `Publish.ShortFileReopens` | powerfs_mod/powerfs_inode.c:609-625 | reopening a file over two volumes while it has two chunks leaves the second volume with base zero |
| `Publish.ZeroBaseLosesFlush` | powerfs_mod/powerfs_file.c:1235-1241 | when that file then grows to four chunks or more, the published table has a live entry that is not flushed |
| `Publish.Retry` | powerfs_mod/powerfs_file.c:1288-1310 | retries stop at the first accepted update or after the last attempt, and the last error is returned |
| `Publish.SyncSizeChunks` | powerfs_mod/powerfs_file.c:1135-1314 | metadata is sent only after all planned flushes succeeded; the committed size changes only when an update is accepted; an unchanged size sends no update |
| `InodeLayout.Inode.IsSubset` | powerfs_mod/powerfs_inode.c:465-482 | the nested scan decides whether the server's volumes are all known |
| `InodeLayout.Inode.ApplyStripe` | powerfs_mod/powerfs_inode.c:450-531 | stripe arrays are kept for a shorter list of known volumes with the same stripe size, else replaced, and dropped when not striped |
| `InodeLayout.Inode.ApplyChunks` | powerfs_mod/powerfs_inode.c:565-655 | a chunk list becomes the shard list, the flat table or the base needles, as reliability and placement say |
| `InodeLayout.Inode.ApplyLayout` | powerfs_mod/powerfs_inode.c:334-656 | a stale layout changes nothing; unsaved inline data survives every layout; a migrated file never goes back inline; a striped file with volumes is never flattened; the new addressing is the preserved, replaced or rebuilt one; and afterwards there is one base needle per volume exactly when the volume list is not replaced by one of another length with the old needles kept |
| `InodeLayout.GrownWithoutChunks` | powerfs_mod/powerfs_inode.c:513-523 | a concrete layout with a third volume and no chunk list that leaves two base needles for three volumes |
| `InodeLayout.PreservedAddressing` | powerfs_mod/powerfs_inode.c:461-493 | with preserved arrays every offset stays where it was exactly when the chunk size did not change or a chunk covers a whole unit before and after |
| `InodeLayout.ReopenedAddressing` | powerfs_mod/powerfs_inode.c:588-629 | a reopened inode finds every offset where the writer put it, if units are aligned and the published table reached every volume |
| `InodeLayout.Reopen` | powerfs_mod/powerfs_inode.c:334-656 | after applying a striped layout with the writer's published table every offset is found where the writer put it, unless the inode held all of the layout's volumes and more under the same stripe size: then it keeps its own volumes and base needles |
| `InodeLayout.FlatReopened` | powerfs_mod/powerfs_inode.c:178-193 | a flat file that loads its published table finds every offset where its file key put it |
| `Writeback.FullCoverage` | powerfs_mod/powerfs_addr.c:193-226 | a positive answer means every byte of the chunk is in some page; for pages in file order the answer is exact |
| `Writeback.FillNeedle` | powerfs_mod/powerfs_addr.c:244-263 | every byte of the buffer is the byte of the page that covers it |
| `Writeback.NextExtent` | powerfs_mod/powerfs_addr.c:393-401 | a maximal run of contiguous pages and the concatenation of their bytes |
| `Writeback.ExtentIsFaithful` | powerfs_mod/powerfs_addr.c:383-480 | a partial write at the offset modulo one mebibyte delivers exactly the bytes of its pages, for every chunk size of whole pages up to a mebibyte |
| `Writeback.DirectIsFaithful` | powerfs_mod/powerfs_addr.c:238-263 | a whole-needle write of a covered chunk delivers exactly the bytes of its pages |
| `Writeback.SubmitExtents` | powerfs_mod/powerfs_addr.c:368-513 | the partial writes of a group deliver all its bytes and nothing else, each those of its own pages |
| `Writeback.SubmitGroup` | powerfs_mod/powerfs_addr.c:1016-1084 | the same for a group, whichever path it takes and whatever the file size is at that moment |
| `Writeback.SubmitBatch` | powerfs_mod/powerfs_addr.c:985-1185 | requests leave out the pages that cannot be located exactly when none of them comes after one that can; then the requests of the batch deliver exactly the bytes of the located pages, and split them into a plan that the completion protocol accepts |
| `Writeback.MixedBatch` | powerfs_mod/powerfs_addr.c:1000-1016 | a concrete batch in which a request carries a page that cannot be located, and that the first pass has ended already |
| `Writeback.ChunkSizeCondition` | powerfs_mod/powerfs_addr.c:454-461 | every page of a located file arrives where it is read back, if and only if chunks are whole pages and at most a mebibyte |
| `Writeback.OrderIsIrrelevant` | powerfs_mod/powerfs_addr.c:815-888 | what is delivered does not depend on the order of completion |
| `Writeback.BatchOverlaysFile` | powerfs_mod/powerfs_addr.c:905-1192 | after the batch, reading through locate gives at every offset that can be located the old file overlaid with the pages, for every order of completion |
| `Writeback.OthersAreUntouched` | powerfs_mod/powerfs_addr.c:905-1192 | no byte of any needle changes that is not a byte of the batch's pages |
| `WbProtocol.StepCounts` | powerfs_mod/powerfs_addr.c:471-502 | every step keeps the counter equal to what the worker and the outstanding requests still hold, less one for each refused extent for which it had not been raised |
| `WbProtocol.StepPages` | powerfs_mod/powerfs_addr.c:869-881 | every step, refusals included, keeps each page's record of leaving writeback right |
| `WbProtocol.StepProgress` | powerfs_mod/powerfs_addr.c:869-888 | every step keeps the whole invariant and brings the batch closer to its end |
| `WbProtocol.NotStuck` | powerfs_mod/powerfs_addr.c:905-1192 | as long as the worker or a callback is not through, some step is possible |
| `WbProtocol.EveryRun` | powerfs_mod/powerfs_addr.c:905-1192 | in every interleaving with any refusals: pages leave writeback at most once, every run is bounded, none gets stuck, and when worker and callbacks are through every page has left writeback once and nothing more happens |
| `WbProtocol.CountAtEnd` | powerfs_mod/powerfs_addr.c:485-510 | at the end of a run the counter is below zero by the number of refused extents for which it had not been raised, and positive before the end if there are none |
| `WbProtocol.BalancedIsRight` | powerfs_mod/powerfs_addr.c:558-572 | without such refusals cleanup has happened, once, exactly when everything is over |
| `WbProtocol.RightIsBalanced` | powerfs_mod/powerfs_addr.c:558-572 | and conversely a run to the end with right cleanup at every moment has had none |
| `WbProtocol.CleanupCondition` | powerfs_mod/powerfs_addr.c:485-572 | for every run to its end: cleanup happens exactly when everything is over, at every moment, if and only if no refused extent was one for which the counter had not been raised |
| `WbProtocol.RefusalCleansEarly` | powerfs_mod/powerfs_addr.c:498-510 | a complete run of a valid batch, one group of two extents with a gap between them, in which such a refusal cleans the batch up while the second extent is still out |
| `WbThrottle.InFlightBound` | powerfs_mod/powerfs_addr.c:1307-1452 | with n callers and any completions, never more than 128 + n - 1 batches are in flight |
| `WbThrottle.BoundIsReached` | powerfs_mod/powerfs_addr.c:1307-1452 | for every n some run reaches that number |
| `CapBits.WireRoundTrip` | powerfs_mod/powerfs_caps.c:325-365 | translating a wire capability set to kernel bits and back gives it again, upper bits aside |
| `CapBits.RequestCovered` | powerfs_mod/powerfs_caps.c:325-365 | a request granted in full covers the bits asked for exactly unless it has extended-attribute or link sharing without any read sharing |
| `CapFlush.TakeKept` | powerfs_mod/powerfs_caps.c:1484-1575 | taking dirty bits onto a flush record loses no bit |
| `CapFlush.SyncKept` | powerfs_mod/powerfs_caps.c:1587-1667 | a sync step covers what was marked before or puts the bits back; page writeback of an inline file covers nothing |
| `CapFlush.InlineSyncedKept` | powerfs_mod/powerfs_caps.c:1884-1888 | if no write landed since the copy, clearing the inline flag after a sync loses no bit |
| `CapFlush.InlineFailsKept` | powerfs_mod/powerfs_caps.c:1888-1894 | a failed inline sync leaves the flag up for what its record carried |
| `CapFlush.EndKept` | powerfs_mod/powerfs_caps.c:1903-1921 | removing a record loses no bit |
| `CapFlush.EarlyMarkLosesBit` | powerfs_mod/powerfs_caps.c:1841-1894 | a concrete run in which a bit marked while no inline data is flagged is taken and dropped by a flush that sends nothing |
| `CapFlush.LateWriteLosesBit` | powerfs_mod/powerfs_caps.c:1841-1894 | a concrete run without overlap in which a write between a flush's copy and its success loses its bit |
| `CapFlush.OverlapLosesBit` | powerfs_mod/powerfs_caps.c:1841-1894 | the same window with two overlapping flushes of inline data |
| `CapFlush.DirtyBitsAreKept` | powerfs_mod/powerfs_caps.c:1461-1930 | over all interleavings of marking, detaching and installing inline data, flushing and revoking, an uncovered dirty bit is always dirty, on a record or guarded by the inline flag, exactly when the layout is not inline, or no write overlaps the stretch from a flush's copy to its outcome and data bits are marked only while inline data is there and flagged |
| `CapIssue.CapsIssued` | powerfs_mod/powerfs_caps.c:970-997 | the fold reports exactly the bits that some valid capability or the snapshot grants and the auth capability is not losing |
| `CapIssue.RecallRetains` | powerfs_mod/powerfs_caps.c:168-188 | a recall leaves exactly the retained part of what was issued |
| `CapIssue.EveryRun` | powerfs_mod/powerfs_caps.c:1227-1337 | over every run: issued is part of implemented, they differ only while a recall is under way, and nothing is issued beyond what the last recall retained and later grants added |
| `CapIssue.RecalledStaysRecalled` | powerfs_mod/powerfs_caps.c:1290-1337 | a bit that is not issued stays so over every run that does not grant it |
| `CapIssue.RecalledBitsAreHidden` | powerfs_mod/powerfs_caps.c:970-1337 | with the one issuer that the client has, bits being recalled are never reported as issued, over all runs and however recalls overlap |
| `CapIssue.OverlapReports` | powerfs_mod/powerfs_caps.c:1336-1337 | if there were several issuers: a concrete run of two overlapping recalls in which a bit being recalled is reported |
| `CapIssue.HiddenCondition` | powerfs_mod/powerfs_caps.c:970-1337 | hence for any number of issuers: recalled bits are never reported exactly when there is one issuer or recalls of a capability do not overlap |
| `DirCache.Directory.Add` | powerfs_mod/powerfs_dir.c:2509-2565 | adding makes the name active and local, revives a tombstone in place, and leaves all other names and positions alone |
| `DirCache.Directory.Remove` | powerfs_mod/powerfs_dir.c:2582-2614 | removing turns the active entry into a tombstone in place, or reports -ENOENT |
| `DirCache.Directory.Compact` | powerfs_mod/powerfs_dir.c:2649-2680 | compaction happens exactly above both thresholds and keeps the live entries in order |
| `DirCache.Directory.MergePage` | powerfs_mod/powerfs_dir.c:2886-2950 | merging a page acts on each listed name: new, seen again, re-created under another inode, or kept dead |
| `DirCache.Directory.Sweep` | powerfs_mod/powerfs_dir.c:2963-2986 | the sweep drops exactly the active entries that another refetch was the last to see, and no others |
| `DirCache.Directory.Refetch` | powerfs_mod/powerfs_dir.c:2836-2986 | one refetch: its pages, local changes between them and the sweep leave for every name what the event sequence says; positions stay |
| `DirCache.RefetchOutcome` | powerfs_mod/powerfs_dir.c:2836-2986 | the state of a name after a refetch, for any local changes in between: listed afterwards and not a tombstone of that inode, or not listed but active and either local or already seen |
| `DirCache.QuietRefetch` | powerfs_mod/powerfs_dir.c:2836-2986 | without local changes the active names are the listed ones not tombstoned with the same inode, plus the local ones never fetched |
| `DirCache.PartialRefetch` | powerfs_mod/powerfs_dir.c:2860-2986 | if a listing breaks off, an active name that the server lists stays active exactly when no page arrived, or it is local and was never fetched, or a page that arrived has it; otherwise no later full listing brings it back |
| `DirCache.LostPageBuries` | powerfs_mod/powerfs_dir.c:2860-2986 | two names on two pages, of which one refetch loses the second: its name stays a tombstone after a complete refetch |
| `DirCache.OverlappingRefetches` | powerfs_mod/powerfs_dir.c:2836-2986 | for any number of refetches whose pages and sweeps interleave, a name that is listed under one inode is active in the end exactly when each sweep that met it came from the refetch that had listed it last, or none had |
| `DirCache.OverlapBuries` | powerfs_mod/powerfs_dir.c:2963-2986 | two overlapping refetches that both list a name leave it a tombstone, and a third one does not bring it back |
| `DirReader.EmitLocked` | powerfs_mod/powerfs_dir.c:3031-3061 | the fallback path emits exactly the live entries between the old and the new position, at any cut |
| `DirReader.CopyWindow` | powerfs_mod/powerfs_dir.c:3064-3092 | the window holds the live entries of a stretch, at most 256, and counts its tombstones |
| `DirReader.EmitBuffered` | powerfs_mod/powerfs_dir.c:3064-3123 | a window that fits moves the position past itself; a cut resumes at the first entry not emitted exactly when no tombstone of the window comes after it |
| `DirReader.StepEmits` | powerfs_mod/powerfs_dir.c:3031-3123 | a call of either path emits the name of a slot once or not at all, passes every slot that it emits, and if it is not cut before a tombstone emits every live slot that it passes |
| `DirReader.RunEmits` | powerfs_mod/powerfs_dir.c:2503-3123 | over every run of adds, removes, merges, sweeps and calls of both paths, the name of a slot has gone out once if some call took the slot, and else never |
| `DirReader.ReadingCondition` | powerfs_mod/powerfs_dir.c:2503-3123 | over every such run: each entry that is live when its slot is passed goes out exactly once, if and only if no buffered call was cut with a tombstone of its window after the first entry that did not fit |
| `DirReader.ExactlyOnce` | powerfs_mod/powerfs_dir.c:2503-3123 | in a run without such cuts an entry that is live throughout goes out exactly once if its slot was passed, and not at all otherwise |
| `DirReader.LockedReading` | powerfs_mod/powerfs_dir.c:3031-3061 | a reader that only uses the fallback path gets that at any cuts |
| `DirReader.CutLosesEntry` | powerfs_mod/powerfs_dir.c:3080-3120 | a concrete run to the end of the list in which an entry that is live throughout is never emitted |
| `DirReader.CompactionSkips` | powerfs_mod/powerfs_dir.c:2649-2680 | when another reader starts, what is ahead of this one stays ahead of it exactly when the list is below a compaction threshold, or this one has passed no tombstone, or nothing live is left |
| `DirReader.CompactionLosesEntry` | powerfs_mod/powerfs_dir.c:2773-2778 | a concrete directory on which compaction acts and a reader that then misses its one file |
| `InodePool.Pool.Take` | powerfs_mod/powerfs_dir.c:50-65 | a number is handed out only from a range of the server and never twice; an empty pool hands out none |
| `InodePool.Pool.Refill` | powerfs_mod/powerfs_dir.c:68-101 | a late or overlapping refill keeps that, for half-open ranges the server gives out once |
| `ReplayFilter.Filter.CheckAndRecord` | powerfs_mod/powerfs_dentry.c:496-555 | a notification is dropped exactly when its key is held with the same or a later version; otherwise the version is raised or the key is queued, over the oldest one if the ring is full |
| `ReplayFilter.RunIsQueue` | powerfs_mod/powerfs_dentry.c:496-555 | at every moment each (parent, name) has at most one slot |
| `ReplayFilter.SurvivesFreshKeys` | powerfs_mod/powerfs_dentry.c:496-555 | eviction is in insertion order: a key is held exactly as long as its age plus the fresh keys since is at most 256, so a new one survives exactly the next 255 |
| `ReplayFilter.AcceptedVersionsRise` | powerfs_mod/powerfs_dentry.c:496-555 | while a key is held, the versions accepted for it strictly increase |
| `Zeroing.Mapping.PunchHole` | powerfs_mod/powerfs_file.c:1985-2058 | for every set of cached pages and every outcome of page reads and allocations, exactly which bytes are zero afterwards and which are kept |
| `Zeroing.Mapping.Extend` | powerfs_mod/powerfs_file.c:2109-2168 | the same for extending; the loop in the attribute-setting path is identical |
| `Zeroing.PunchIsExact` | powerfs_mod/powerfs_file.c:1985-2058 | when pages can be read and allocated, exactly the bytes from the offset to the smaller of end and size |
| `Zeroing.PunchSpares` | powerfs_mod/powerfs_file.c:2015-2031 | a byte outside the hole is lost exactly when its page is at the edge, not cached, cannot be read and can be allocated |
| `Zeroing.PunchLosesByte` | powerfs_mod/powerfs_file.c:2015-2031 | a concrete file and hole whose neighbouring byte is lost |
| `Zeroing.ExtendIsExact` | powerfs_mod/powerfs_inode.c:2041-2097 | when pages can be read and allocated, old bytes stay and everything up to the new size is zero |
| `Zeroing.ExtendSpares` | powerfs_mod/powerfs_file.c:2140-2149 | a byte of the old file is lost exactly when it shares a page with the old end and that page is not cached, cannot be read and can be allocated |
| `Zeroing.ExtendLosesByte` | powerfs_mod/powerfs_file.c:2140-2149 | a concrete file that loses its byte when it grows |

## Left out

- Elimination.EcInit: leaves out shard counts whose sum is exactly 2^32; the source's sum is then zero and it reads a matrix without rows.
- DirCache.Directory.Add: takes the check for the name and the insertion as one step; the source drops the directory mutex in between, but all its callers hold the kernel's exclusive lock on the directory, which neither another change nor a read of the directory overlaps.
- Writeback.SubmitBatch: takes the chunk sizes for which writeback is right, whole pages up to a mebibyte, and batches cut at mebibytes as the caller cuts them.
- ErasureCodec.Codec.Decode: allocates all missing buffers at once, after the inversion, where the source allocates each just before filling it.
- CapFlush.DirtyBitsAreKept: covers marking, writing, flushing and revoking; fsync, close and truncation, which also clear the inline flag, are not steps of the model, and marked bits are the four that the callers mark. It asks flushes not to copy while a growing write has the buffer detached; in the source such a write marks its bit before it detaches the buffer, and the page lock holds up the flushes that take this bit, so that window alone loses nothing there.
- Allocation failures (-ENOMEM) and null arguments, except for missing shard buffers in the codec and page allocation in the zeroing loops.
- Flat index arithmetic of the matrices; they are two-dimensional arrays here.
- The second pass over a batch assumes that the layout does not change between the two passes.
- The reliability state and the ownership transfer of buffers when a layout is applied.
- Migration of inline data to a volume layout during a flush: the layout is fixed in the flush model.
- What a revoke does besides changing bits: the acknowledgement, which is sent whatever the flush returned, cache invalidation and waking up waiters.
- Capability references taken by waiters, and leases.
- Compaction as a step of a reader's run (what one compaction does to a reader is stated), and the dot entries.
- Names longer than 255 bytes or with embedded zero bytes.
- Write prediction and deduplication, direct I/O, the retired read-modify-write path of writeback.
- The transport, flow control, mount options, name lookup, extended attributes, ACLs and memory mapping: mostly calls into code outside this model, or easier than what is here.
- The lock client and the page-cache wrappers: compiled out, stubs or thin.
