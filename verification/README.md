# Index-based containers and the flow cache, modelled and proved in Dafny

Two imperative cores that link their elements by array index instead of by pointer:

* **The 16-way cuckoo hash and the flow cache on top of it.** A bucket holds sixteen fingerprints and
  node indices; a full bucket is relieved by a bounded recursion that may come back to the bucket it
  started from. The flow cache adds a pool with a free list, eviction by age under a timeout that
  shrinks as the table fills, cursor-driven sweeps, and software pipelines whose comparison stage uses
  scans that are older than the table.
* **The red-black tree with parent indices**, whose remove fix-up works on a node that may be NIL.

All operations are methods over arrays and fields, as in the C headers. Each is tied to a value-level
description of the state, and the theorems are about those values.

| file | contents |
|---|---|
| HashScheme, GenericHash | the word arithmetic a table needs; the scalar hashes, their re-mix loop, and the proof that they meet the need |
| SlotStore, SlotTable | the table with hash_field and slot_field: values, invariants, kickout theory; the class with find, insert, remove |
| SlotKick | kickout and insert as functions of the table: the search is deterministic |
| SlotVariants | how the fingerprint and key-only variants locate slots, on the same tables |
| RehashStore, RehashTable | the variants that hash a victim again: integer keys in the bucket with a sentinel, and key-only fingerprints |
| Bits16 | sixteen-lane scans |
| FlowState, FlowTimeout | the cache as a value, its invariant, sweeps, and the adaptive timeout |
| FlowCache, FlowKeys, FlowBulk | the cache class, the single-key operations, the batch pipelines |
| FlowSteps, FlowBatches, FlowRuns | what one key, one batch and a whole run do; the main theorems |
| FlowWitness | a batch, from init on, that differs from one key at a time |
| RbTheory, RbLinks, RbOrder, RbTree | trees with a hole, their image in the link array, key order; the class |

How to read the contracts:

* `Inv` says that a fingerprint is 0 exactly where the index is NIL, that a stored node's own fields lead back
  to its slot, that it sits in one of the two candidate buckets of its key, and that keys are unique. The map
  that a table stands for is `Contents`.
* `Room` says that a chain of at most d moves makes a free slot in a bucket: each move goes into the slot that the next
  one leaves, the last into a slot that is free already. From a full bucket up to depth 4, and from any bucket up to
  depth 2, kickout succeeds if and only if such a chain exists. So insert refuses a new key if and only if both of its
  buckets are full and neither has a chain of up to four moves (`Blocked`); the two insert methods say so with the
  number 4 written out.
* `Kicked` is the rest of the contract of kickout. Contents and invariants survive success and failure at every depth
  and from every bucket. At those depths a failing kickout leaves the arrays as they were, which is the comment's
  claim, so a refused insert leaves the table untouched. The slot table's kickout and insert also equal functions of
  the table, `KickOf` and `InsertOf`, so two runs of the same adds agree on everything (`AddChainUnique`).
* `SweptExactly` says what a sweep does without mentioning how it is computed: an entry goes if and only if its bucket
  is one of those counted off from the start modulo the number of buckets, more than the threshold of the bucket's slots
  are taken, and the last access plus the timeout lies before now. `ReliefLaw` says the same of relief, and `Throttled`
  says when and how wide the throttled step sweeps.
* `CacheInv` puts every pool index in exactly one place, in the table with a timestamp or once on the free list
  without one, and balances the counters.
* `Run` is any sequence of find, add, find-or-add, sweep, delete and flush steps from a state with `CacheInv`; it
  assumes nothing about the later states. `RunKeeps` carries `CacheInv` along it, and freshness and accounting
  follow. Every batch and every maintenance call is a run (`FindIsRun` and its companions), and runs join (`RunJoin`).
* `FindAddChain` is the run of a find-or-add batch, one `FindAddStep` per key. Each step carries the older state
  in which the key's first bucket was scanned; `ScanPoint` says which one the pipeline uses.
* The pipelines are proved for every `Pace`: any block of at least one key, any look-ahead of whole blocks.

Facts about the code that the contracts make visible:

* `insert_hashed` writes hash_field before it looks for duplicates. If the element is already in the table this
  keeps the table valid if and only if it sits in its first bucket (`EarlyWriteHarmless`); then insert returns it
  and changes nothing. In its second bucket the write would cut it off from its own slot.
* A batch of find-or-add is not one key at a time: with nothing free, a key that was entered earlier in the
  same batch can still get 0. `BatchIsNoFold` carries out such a batch from init. `BatchIsFold` says when the
  pipeline is one key at a time: if and only if every scan agrees with the table at the turn of its key.
  `StoredKeyGetsZero` says when a stored key gets 0: if and only if its scan overlooks it, nothing is free and
  relief has nobody to evict, all of which can be read off before the call; `EnoughFree` gives a condition on the whole batch.
* A throttled step cuts its quotients to 32 bits. Without a fill trigger, exactly 2^32 intervals after the last step a
  step that is long overdue does nothing (`DueButSkipped`); the scale is what it should be if and only if that number
  fits into 32 bits (`ScaleExact`).
* Inserting calls need a time other than 0, because 0 marks a free entry.
* `rix_hash_nb_bk_hint` wraps around for its seven largest arguments, and only for those its answer is too small.

## Model

| member | source | states |
|---|---|---|
| GenericHash.SeparatedDiffers | include/rix/rix_hash_arch.h:219-226 | for every odd mask one re-mix step is enough: the halves name different buckets and their exclusive or is not 0 |
| GenericHash.Remix | include/rix/rix_hash_arch.h:222-225 | the re-mix loop terminates and leaves two halves that differ under the mask |
| GenericHash.HashU32 | include/rix/rix_hash_arch.h:214-229 | distinct buckets and a fingerprint other than 0; multiplying the first half by the inverse of 2654435761 gives the key back, and the second half follows from both |
| GenericHash.HashU64 | include/rix/rix_hash_arch.h:231-248 | distinct buckets and a fingerprint other than 0; the first half and the start of the second each give back a mixture of both halves of the key |
| GenericHash.HashBytes | include/rix/rix_hash_arch.h:250-271 | distinct buckets and a fingerprint other than 0; the loop computes FNV-1a, and the second half follows from the first |
| GenericHash.KnuthLinear | include/rix/rix_hash_arch.h:214-229 | the first half of the 32-bit hash is linear in the key, and no two keys share it |
| GenericHash.KnuthKnown | include/rix/rix_hash_arch.h:214-229 | its values for 0, 1 and 2 |
| GenericHash.HalvesApart | include/rix/rix_hash_arch.h:231-248 | 64-bit keys that differ in one half only have different first halves |
| GenericHash.FnvKnown | include/rix/rix_hash_arch.h:250-271 | the published FNV-1a values of the empty string, "a" and "fo" |
| GenericHash.FnvApart | include/rix/rix_hash_arch.h:250-271 | two byte strings of one length that differ in a single byte have different first halves |
| GenericHash.LowIsMasked | include/rix/rix_hash_common.h:174-181 | the bucket number is the masked word: equal exactly when the words agree under 2^k - 1 |
| GenericHash.LowMasked | include/rix/rix_hash_common.h:174-181 | the bucket number is the masked word read as a number |
| GenericHash.RemixSpreads | include/rix/rix_hash_arch.h:219-226 | whatever its start values, the re-mix loop ends in halves that name different buckets |
| GenericHash.SpreadLawful | include/rix/rix_hash_common.h:151-172 | halves that name different buckets are all that a table needs of its hash |
| GenericHash.GenericLawful | include/rix/rix_hash_common.h:151-172 | with each of the three generic hashes, of 32-bit keys, 64-bit keys and byte strings, every table of 2^k buckets, k at least 1, has distinct candidates in range and a fingerprint that leads from each to the other |
| GenericHash.NbBkHint | include/rix/rix_hash_common.h:352-366 | a power of two, at least 2, the least one that is large enough; too small exactly when the rounding up wraps around, and then 2 |
| Bits16.FindX16 | include/rix/rix_hash_arch.h:168-176 | bit s is set exactly when lane s holds the value |
| Bits16.FindX16Two | include/rix/rix_hash_arch.h:178-193 | both masks in one pass |
| SlotStore.SlotLaws | include/rix/rix_hash_common.h:166-172 | (fp ^ hash_field) & mask is the other candidate bucket of the occupant, and never its own |
| SlotStore.StoredLaws | include/rix/rix_hash_common.h:238-254 | hash_field and slot_field of a stored node name its one slot, in a candidate bucket of its key |
| SlotStore.MovedInv | include/rix/rix_hash_slot.h:296-320 | one relocation keeps the invariants and the contents |
| SlotStore.HeldEntry | include/rix/rix_hash_slot.h:343-348 | up to depth 4 from a full bucket the recursion cannot displace the entry that waits for it |
| SlotStore.RelayKick | include/rix/rix_hash_slot.h:336-351 | moving the held entry after the recursion meets the caller's contract |
| SlotStore.DirectKick | include/rix/rix_hash_slot.h:332-335 | a direct move meets the contract at every depth |
| SlotStore.EarlyWriteHarmless | include/rix/rix_hash_slot.h:368-369 | writing the first hash into the hash_field of a stored node keeps the invariants if and only if the node sits in its first bucket |
| SlotStore.BlockedJammed | include/rix/rix_hash_slot.h:409-431 | a full bucket without a chain of up to four moves has no occupant that can move directly |
| SlotStore.RoomSame | include/rix/rix_hash_slot.h:322-354 | chains depend on the buckets and the keys of their occupants only |
| SlotStore.InsertedContents | include/rix/rix_hash_slot.h:356-432 | insert adds exactly one pair to the map or leaves it alone; the key decides which |
| SlotStore.RemovedContents | include/rix/rix_hash_slot.h:453-472 | remove takes exactly one pair out of the map |
| SlotTableModel.SlotTable.constructor | include/rix/rix_hash_slot.h:61-66 | a table over zeroed buckets is valid and empty |
| SlotTableModel.SlotTable.FindEmpty | include/rix/rix_hash_slot.h:287-294 | the lowest free slot, or -1 exactly when the bucket is full |
| SlotTableModel.SlotTable.FlipFlop | include/rix/rix_hash_slot.h:296-320 | the occupant moves to a free slot of its other bucket, or nothing changes and there is none |
| SlotTableModel.SlotTable.MoveDirect | include/rix/rix_hash_slot.h:332-335 | the first pass moves the first occupant that can move, or none can; if one can, there is a chain |
| SlotTableModel.SlotTable.MakeRoom | include/rix/rix_hash_slot.h:322-354 | both passes of kickout, as a function of the table; at quiet depths they succeed if and only if a chain of at most depth moves exists |
| SlotTableModel.SlotTable.Kickout | include/rix/rix_hash_slot.h:322-354 | for every depth and bucket: contents and invariants kept, a free slot on success; at quiet depths success if and only if a chain of at most depth moves exists, and arrays untouched otherwise; result and table are determined by the table before |
| SlotTableModel.SlotTable.KickThrough | include/rix/rix_hash_slot.h:336-351 | one round of the second pass, including the case that the recursion displaced the entry; at quiet depths it succeeds if and only if a chain starts with this entry |
| SlotTableModel.SlotTable.MoveHeld | include/rix/rix_hash_slot.h:343-350 | the unchecked move after the recursion always succeeds |
| SlotTableModel.SlotTable.HashKey | include/rix/rix_hash_slot.h:160-179 | the context holds hash, fingerprint and both buckets of the key |
| SlotTableModel.SlotTable.ScanBk | include/rix/rix_hash_slot.h:104-111 | the hit mask marks the slots with the fingerprint and so covers every slot that holds the key |
| SlotTableModel.SlotTable.ScanBkEmpties | include/rix/rix_hash_slot.h:182-193 | the same, and the free slots |
| SlotTableModel.SlotTable.CmpKey | include/rix/rix_hash_slot.h:126-153 | with any mask, however old: a hit is a stored node with the key that the stage looked at, a miss means no such node |
| SlotTableModel.SlotTable.CmpKeyEmpties | include/rix/rix_hash_slot.h:197-230 | the same, and after a miss the free slots of the second bucket |
| SlotTableModel.SlotTable.MissCovered | include/rix/rix_hash_slot.h:126-153 | a miss under a covering mask means that the key is not stored |
| SlotTableModel.SlotTable.Find | include/rix/rix_hash_slot.h:272-282 | the stored node with the key, NIL exactly when the key is not in the map |
| SlotTableModel.SlotTable.InsertHashed | include/rix/rix_hash_slot.h:356-432 | the node that has the key; for a new key elm if and only if both buckets are full and neither has a chain of up to four moves, with the table untouched; else NULL and added, in the lowest free slot of the first bucket, else of the second, else after moving others |
| SlotTableModel.SlotTable.InsertByKickout | include/rix/rix_hash_slot.h:409-431 | the slow path of insert from two full buckets, refused if and only if neither has a chain of up to four moves |
| SlotTableModel.SlotTable.Insert | include/rix/rix_hash_slot.h:434-445 | insert with the hash of the element's key, with the same condition for a refusal; an element that sits in its first bucket comes back and nothing changes |
| SlotKick.InsertOfDuplicate | include/rix/rix_hash_slot.h:369-391 | insert as a function: a stored key gives its node and only hash_field of elm changes |
| SlotKick.InsertOfFresh | include/rix/rix_hash_slot.h:392-432 | a new key gives what the search for room gives |
| SlotTableModel.SlotTable.RemoveAt | include/rix/rix_hash_slot.h:474-492 | empties one slot and returns its node; slots past 15 and free slots change nothing |
| SlotTableModel.SlotTable.Remove | include/rix/rix_hash_slot.h:453-472 | takes out exactly the one occurrence of elm, and fails exactly on nodes outside the table |
| SlotVariantsModel.OnlyThere | include/rix/rix_hash_common.h:241-254 | a node occurs in no slot but its own |
| SlotVariantsModel.RemoveByScan | include/rix/rix_hash_fp.h:518-536 | the scan of the bucket that hash_field names finds the slot that slot_field names |
| SlotVariantsModel.RemoveByKey | include/rix/rix_hash_keyonly.h:432-459 | so does the scan of both buckets of the key |
| SlotVariantsModel.AltByRehash | include/rix/rix_hash_keyonly.h:285-290 | hashing the occupant's key again leads to the bucket that fingerprint and hash_field lead to |
| RehashStore.MovedInv | include/rix/rix_hash32.h:347-369 | one relocation keeps the invariants and the contents |
| RehashStore.HeldEntry | include/rix/rix_hash32.h:390-405 | up to depth 4 from a full bucket the recursion cannot displace the entry that waits for it |
| RehashStore.RelayKick | include/rix/rix_hash32.h:390-413 | moving the held entry after the recursion meets the caller's contract |
| RehashStore.DirectKick | include/rix/rix_hash32.h:384-388 | a direct move meets the contract at every depth |
| RehashStore.InsertedContents | include/rix/rix_hash32.h:425-479 | insert adds exactly one pair to the map or leaves it alone |
| RehashStore.RemovedContents | include/rix/rix_hash32.h:490-517 | remove takes exactly one pair out of the map |
| RehashStore.Unmarked | include/rix/rix_hash32.h:88-90 | the key set aside for empty slots is never stored |
| RehashTableModel.LayoutsLawful | include/rix/rix_hash32.h:95-102 | both layouts meet the sentinel contract: the key itself as the tag, or the exclusive or of both hash halves, which is never 0 |
| RehashTableModel.RehashTable.constructor | include/rix/rix_hash32.h:164-179 | every slot gets the sentinel and no index; the table is empty |
| RehashTableModel.RehashTable.VictimHash | include/rix/rix_hash32.h:353-357 | the hash of the occupant's key, from the key word in the bucket where the bucket has it |
| RehashTableModel.RehashTable.FindEmpty | include/rix/rix_hash32.h:332-340 | the lowest slot with the sentinel, -1 exactly when the bucket is full |
| RehashTableModel.RehashTable.AltOf | include/rix/rix_hash32.h:357-360 | the candidate bucket other than the present one |
| RehashTableModel.RehashTable.FlipFlop | include/rix/rix_hash32.h:347-369 | moves the occupant if its other bucket has room, and changes nothing otherwise |
| RehashTableModel.RehashTable.Kickout | include/rix/rix_hash32.h:377-415 | contents and invariants kept at every depth, a free slot on success; at quiet depths success if and only if a chain of at most depth moves exists, and buckets untouched otherwise |
| RehashTableModel.RehashTable.KickThrough | include/rix/rix_hash32.h:390-413 | one round of the second pass with its inline move; at quiet depths it succeeds if and only if a chain starts with this entry |
| RehashTableModel.RehashTable.MoveDirect | include/rix/rix_hash32.h:384-388 | the first pass moves the first occupant that can move, or none can; if one can, there is a chain |
| RehashTableModel.RehashTable.MoveHeld | include/rix/rix_hash32.h:405-413 | the inline move after the recursion always succeeds |
| RehashTableModel.RehashTable.MatchFirst | include/rix/rix_hash32.h:249-267 | the first match is exact, because the sentinel is on exactly the empty slots |
| RehashTableModel.RehashTable.MatchCompare | include/rix/rix_hash_keyonly.h:167-194 | the matches are compared by key |
| RehashTableModel.RehashTable.Find | include/rix/rix_hash32.h:317-327 | the stored node with the key, NIL exactly when the key is not in the map; the sentinel is never found |
| RehashTableModel.RehashTable.Insert | include/rix/rix_hash32.h:425-479 | the node with the key; for a new key elm if and only if both buckets are full and neither has a chain of up to four moves; else NULL and added, in the lowest free slot of the first bucket, else of the second, else after moving others; untouched unless it added |
| RehashTableModel.RehashTable.Remove | include/rix/rix_hash32.h:490-517 | takes out exactly elm, and fails exactly when it is not stored |
| RehashTableModel.RehashTable.Walk | include/rix/rix_hash32.h:525-547 | visits every stored node once, until the callback objects |
| FlowState.PoolPartition | samples/fcache/src/fc_cache_generate.h:201-217 | free entries and stored entries add up to the pool |
| FlowState.EvictOne | samples/fcache/src/fc_cache_generate.h:286-307 | evicting one entry keeps the pool in order |
| FlowState.ScanDone | samples/fcache/src/fc_cache_generate.h:219-284 | filtering the used slots in order lists all expired slots, and the running minimum is the oldest of them |
| FlowState.ExpiredOfBucket | samples/fcache/src/fc_cache_generate.h:309-330 | the listed slots hold exactly the expired entries of the bucket |
| FlowState.SweptJoin | samples/fcache/src/fc_cache_generate.h:414-444 | consecutive sweeps cover one contiguous arc |
| FlowState.SweptAll | samples/fcache/src/fc_cache_generate.h:414-444 | a sweep as wide as the table visits exactly the buckets of the table |
| FlowState.SweptArc | samples/fcache/src/fc_cache_generate.h:347-356 | a sweep visits the buckets counted off from its start modulo the number of buckets |
| FlowState.SweepLaw | samples/fcache/src/fc_cache_generate.h:332-361 | evicting what counts as expired is evicting exactly the entries whose last access plus the timeout lies before now |
| FlowState.UsedIsSize | samples/fcache/src/fc_cache_generate.h:363-369 | the number of used slots is the size of the set of occupied slots |
| FlowState.ChunkStep | samples/fcache/src/fc_cache_generate.h:370-444 | sweeping in chunks evicts what one sweep would, judged by the fill at its start |
| FlowState.LargestIs | samples/fcache/src/fc_cache_generate.h:858-868 | the largest number of times that time or new entries have reached their trigger is the larger one of the two quotients |
| FlowState.ScaleExact | samples/fcache/src/fc_cache_generate.h:863-868 | the scale of a throttled step is that number if and only if it fits into 32 bits |
| FlowState.NothingDue | samples/fcache/src/fc_cache_generate.h:863-870 | that number is 0 if and only if an interval is set and has not passed and no fill trigger is set and reached |
| FlowState.DueButSkipped | samples/fcache/src/fc_cache_generate.h:863-870 | an input on which a due step does nothing |
| FlowState.ThrottledBy | samples/fcache/src/fc_cache_generate.h:845-882 | a throttled step does nothing if nothing is due, else sweeps as many base widths as that number, one lap at most |
| FlowTimeout.EffTimeoutRange | samples/fcache/src/fc_cache_generate.h:138-162 | the timeout in force stays between max(1, timeout/8) and timeout for every fill level, even if the product wraps |
| FlowTimeout.EffTimeoutAntitone | samples/fcache/src/fc_cache_generate.h:138-162 | without wrap-around it never grows with the fill level |
| FlowTimeout.MakeConfigOk | samples/fcache/src/fc_cache_generate.h:164-184 | the thresholds computed at init are 38, 48, 45 and 48 sixty-fourths of the slots, rounded down, the minimum is an eighth of the timeout, at least 1, and defaults stand in for zeros |
| FlowTimeout.EffTimeoutLine | samples/fcache/src/fc_cache_generate.h:138-162 | between the two thresholds the timeout falls on a straight line, whatever the 64-bit product is |
| FlowTimeout.ReliefEmptySlots | samples/fcache/src/fc_cache_generate.h:186-199 | the configured threshold, raised to 2 and 3 from the two fill levels on and nowhere else |
| FlowCacheModel.FlowCache.constructor | samples/fcache/src/fc_cache_generate.h:537-574 | an empty valid cache with every entry on the free list |
| FlowCacheModel.FlowCache.Flush | samples/fcache/src/fc_cache_generate.h:576-587 | every entry goes back to the free list |
| FlowCacheModel.FlowCache.LinkAll | samples/fcache/src/fc_cache_generate.h:571-573 | the free list runs from the last cell to the first |
| FlowCacheModel.FlowCache.FreeEntry | samples/fcache/src/fc_cache_generate.h:211-217 | the cell becomes the head of the free list and loses its timestamp |
| FlowCacheModel.FlowCache.EvictSlot | samples/fcache/src/fc_cache_generate.h:300-306 | exactly the occupant of the slot leaves |
| FlowCacheModel.FlowCache.ScanBucketSlots | samples/fcache/src/fc_cache_generate.h:219-284 | the four-wide waves list all expired slots in order and pick the oldest, the first one among equals |
| FlowCacheModel.FlowCache.ReclaimBucket | samples/fcache/src/fc_cache_generate.h:286-307 | the oldest expired entry of the bucket goes, if there is one |
| FlowCacheModel.FlowCache.ReclaimBucketAll | samples/fcache/src/fc_cache_generate.h:309-330 | exactly the expired entries of the bucket go, and are counted |
| FlowCacheModel.FlowCache.UpdateEffTimeout | samples/fcache/src/fc_cache_generate.h:138-162 | sets the timeout for the present fill level |
| FlowCacheModel.FlowCache.MaintainGrouped | samples/fcache/src/fc_cache_generate.h:332-361 | exactly the entries of the swept buckets whose last access plus the timeout lies before now go, and are counted |
| FlowCacheModel.FlowCache.BucketUsedSlots | samples/fcache/src/fc_cache_generate.h:363-369 | the size of the set of occupied slots |
| FlowCacheModel.FlowCache.FilterReclaim | samples/fcache/src/fc_cache_generate.h:370-412 | exactly the expired entries of the buckets that were more than skip full at the start of the chunk go |
| FlowCacheModel.FlowCache.StepGrouped | samples/fcache/src/fc_cache_generate.h:414-444 | the same for the buckets that held more than the threshold, in chunks of 256 and one lap at most; the cursor ends where the sweep ended, counted modulo the number of buckets |
| FlowCacheModel.FlowCache.Maintain | samples/fcache/src/fc_cache_generate.h:818-828 | maintenance of a range under the timeout for the present fill level: a stored entry of a swept bucket stays if and only if now is at most its last access plus the timeout |
| FlowCacheModel.FlowCache.MaintainStepEx | samples/fcache/src/fc_cache_generate.h:830-843 | the same from a given bucket, for buckets above a given threshold |
| FlowCacheModel.FlowCache.MaintainStep | samples/fcache/src/fc_cache_generate.h:845-882 | one lap when idle; otherwise nothing if nothing is due, else a sweep of as many base widths as the triggers have been reached, one lap at most, under the clock's wrap-around |
| FlowCacheModel.FlowCache.RemoveIdx | samples/fcache/src/fc_cache_generate.h:884-898 | deletes exactly the entry with the index, if it is stored |
| FlowCacheModel.FlowCache.Walk | samples/fcache/src/fc_cache_generate.h:907-919 | visits exactly the entries in the hash table, in pool order |
| FlowKeyModel.AllocEntry | samples/fcache/src/fc_cache_generate.h:201-209 | takes the head of the free list |
| FlowKeyModel.AddMissing | samples/fcache/src/fc_cache_generate.h:964-995 | allocate, write, insert, and free again on a duplicate or without room |
| FlowKeyModel.Relieve | samples/fcache/src/fc_cache_generate.h:736-766 | whether and whom relief evicts, with its counters |
| FlowKeyModel.FindAddOne | samples/fcache/src/fc_cache_generate.h:722-803 | the last stage of find-or-add for one key with a stale scan |
| FlowBulkModel.StageScan | samples/fcache/src/fc_cache_generate.h:618-626 | the scan stage leaves covering masks for its block |
| FlowBulkModel.StageScanEmpties | samples/fcache/src/fc_cache_generate.h:696-704 | the scan stage of find-or-add happens at the scan point of its keys |
| FlowBulkModel.StageFindAdd | samples/fcache/src/fc_cache_generate.h:714-811 | the last stage handles each key of its block once, in order |
| FlowBulkModel.FindBulk | samples/fcache/src/fc_cache_generate.h:596-663 | for every pace the pipeline is one lookup after the other; every answer is exact for the table at the start; hits grow by the number of results other than 0, misses by the rest |
| FlowBulkModel.FindAddBulk | samples/fcache/src/fc_cache_generate.h:666-816 | for every pace the pipeline is a chain of find-or-add steps with stale scans; at its end every result other than 0 is live, stamped and shared by equal keys; zeros equal the growth of fill_full, and hits grow by the keys found |
| FlowBulkModel.AddBulk | samples/fcache/src/fc_cache_generate.h:922-1006 | for every pace the pipeline is one add after the other, each determined by the state before it; at the end every result holds |
| FlowBulkModel.DelBulk | samples/fcache/src/fc_cache_generate.h:1009-1065 | the pipeline is one deletion after the other and drops exactly the listed keys, repeated or not |
| FlowBulkModel.CoversAfter | samples/fcache/src/fc_cache_generate.h:1051-1060 | a deletion leaves older hit masks covering |
| FlowBulkModel.DelIdxBulk | samples/fcache/src/fc_cache_generate.h:1068-1105 | exactly the listed entries go |
| FlowSteps.AddEntered | samples/fcache/src/fc_cache_generate.h:971-981 | a successful insert keeps the pool in order |
| FlowSteps.AddDuplicate | samples/fcache/src/fc_cache_generate.h:982-988 | so does a duplicate |
| FlowSteps.AddRefused | samples/fcache/src/fc_cache_generate.h:989-993 | and a refused insert |
| FlowSteps.AddCounted | samples/fcache/src/fc_cache_generate.h:964-995 | an add keeps the counters balanced |
| FlowSteps.ReliefCounted | samples/fcache/src/fc_cache_generate.h:736-766 | so does relief |
| FlowSteps.ReliefForeseen | samples/fcache/src/fc_cache_generate.h:736-766 | relief evicts nobody exactly when there is no pressure or nothing expired where it looks |
| FlowSteps.ReliefLaw | samples/fcache/src/fc_cache_generate.h:736-766 | a victim's last access plus the timeout lies before now and nobody in its bucket is older; if the first bucket is short of room in the scan and holds such an entry, or the second one now, somebody goes |
| FlowSteps.AddStepUnique | samples/fcache/src/fc_cache_generate.h:964-995 | the result of an add and the state after it are determined by the state before, jammed buckets included |
| FlowSteps.FindAddStepUnique | samples/fcache/src/fc_cache_generate.h:722-803 | a find-or-add is determined by the state and the scan |
| FlowBatches.FindChainClosed | samples/fcache/src/fc_cache_generate.h:596-663 | lookups one after the other answer from the table at the start and stamp exactly the entries found |
| FlowBatches.FindChainUnique | samples/fcache/src/fc_cache_generate.h:596-663 | any two runs of the same lookups agree on every result and on the final state |
| FlowBatches.DelChainClosed | samples/fcache/src/fc_cache_generate.h:1009-1065 | deletions one after the other drop exactly the entries of the listed keys |
| FlowBatches.DelIdxClosed | samples/fcache/src/fc_cache_generate.h:1068-1105 | the same by index |
| FlowBatches.AddChainAnswered | samples/fcache/src/fc_cache_generate.h:922-1006 | all results of a batch of adds hold at its end; every 0 is counted once |
| FlowBatches.AddChainUnique | samples/fcache/src/fc_cache_generate.h:922-1006 | any two runs of the same adds agree on every result and every state |
| FlowBatches.FindAddUnique | samples/fcache/src/fc_cache_generate.h:666-816 | so do any two runs of the same find-or-adds with the same scans |
| FlowBatches.FindAddAnswered | samples/fcache/src/fc_cache_generate.h:666-816 | whatever states the scans were made in: results other than 0 are live and stamped at the end, equal keys share one |
| FlowBatches.FindAddBooks | samples/fcache/src/fc_cache_generate.h:734-815 | misses are fills plus fill_full plus late duplicates; zero results are counted in fill_full |
| FlowBatches.FindAddTally | samples/fcache/src/fc_cache_generate.h:734-815 | the fill counter grows by the keys that were entered and fill_full by the keys that got 0, no others |
| FlowBatches.ReliefKeeps | samples/fcache/src/fc_cache_generate.h:744-766 | relief leaves every entry alone whose last access plus the timeout is not before now |
| FlowBatches.FreshScanExact | include/rix/rix_hash_slot.h:272-282 | a scan of the present table answers exactly |
| FlowBatches.OverlookedMoved | samples/fcache/src/fc_cache_generate.h:696-725 | a stale scan overlooks a stored key only if its entry came to its present slot after the scan |
| FlowBatches.ScanPointLaw | samples/fcache/src/fc_cache_generate.h:676-704 | how many keys have been compared when a block is scanned: those two look-aheads behind it |
| FlowBatches.StoredKeyGetsZero | samples/fcache/src/fc_cache_generate.h:768-772 | a stored key gets 0 if and only if the scan overlooks it, nothing is free and relief has nobody to evict, itself included; all three are facts of the state before the call |
| FlowBatches.EnoughFree | samples/fcache/src/fc_cache_generate.h:768-808 | with a free entry for every key of the batch, a key gets 0 if and only if it is new and both of its buckets are blocked |
| FlowBatches.StaleIsFresh | samples/fcache/src/fc_cache_generate.h:696-725 | a step with a stale scan is a step with a fresh one if and only if the scan overlooks no entry of the key or, for a new key, shows the same pressure |
| FlowBatches.BatchIsFold | samples/fcache/src/fc_cache_generate.h:666-816 | a pipelined batch is the same run as one key at a time if and only if every scan agrees |
| FlowBatches.AgreeingBatch | samples/fcache/src/fc_cache_generate.h:666-816 | then it has the results and the end state of one key at a time |
| FlowBatches.PairInOneBatch | samples/fcache/src/fc_cache_generate.h:768-772 | an empty table, one free entry, the same new key twice in a block: the second one gets 0 |
| FlowBatches.PairOneAtATime | samples/fcache/src/fc_cache_generate.h:768-772 | one key at a time both get the entry |
| FlowWitnessModel.BatchIsNoFold | samples/fcache/src/fc_cache_generate.h:666-816 | carried out from init, for every lawful scheme, setting, key and time: the batch gives 1 and 0, two batches of one give 1 and 1 |
| FlowState.PurgedPool | samples/fcache/src/fc_cache_generate.h:286-330 | an eviction of any set of entries keeps every pool index in exactly one place |
| FlowState.PurgedInv | samples/fcache/src/fc_cache_generate.h:286-330 | and keeps the table valid |
| FlowRuns.EventKeeps | samples/fcache/src/fc_cache_generate.h:537-1106 | find, add, find-or-add, sweep, delete and flush each keep the table valid, every pool index in exactly one place and the counters balanced |
| FlowRuns.RunKeeps | samples/fcache/src/fc_cache_generate.h:537-1106 | so does any run of them, in any order, from any valid state; nothing is assumed of the states on the way |
| FlowRuns.YoungStays | samples/fcache/src/fc_cache_generate.h:138-184 | over any run, an entry never older than max(1, timeout/8) when relief or maintenance look leaves only by deletion or flush |
| FlowRuns.RunBooks | samples/fcache/src/fc_cache_generate.h:734-815 | over any run since init without flush: live entries are fills minus evictions minus deletions, lookups are hits plus misses, free plus live is the pool |
| FlowRuns.RunJoin | samples/fcache/src/fc_cache_generate.h:537-1106 | a run that begins where another ended continues it |
| FlowRuns.FindIsRun | samples/fcache/src/fc_cache_generate.h:596-663 | a lookup batch is a run |
| FlowRuns.CreditIsRun | samples/fcache/src/fc_cache_generate.h:659-661 | so is the update of the lookup counters at its end |
| FlowRuns.AddIsRun | samples/fcache/src/fc_cache_generate.h:922-1006 | an add batch is a run |
| FlowRuns.DelIsRun | samples/fcache/src/fc_cache_generate.h:1009-1065 | a deletion batch is a run |
| FlowRuns.DelIdxIsRun | samples/fcache/src/fc_cache_generate.h:1068-1105 | a deletion batch by index is a run |
| FlowRuns.MaintainIsSweep | samples/fcache/src/fc_cache_generate.h:818-828 | maintenance of a range is a sweep of that range |
| FlowRuns.BatchIsRun | samples/fcache/src/fc_cache_generate.h:666-816 | a find-or-add batch is a run, whichever states its scans were made in |
| FlowRuns.StepIsSweep | samples/fcache/src/fc_cache_generate.h:830-882 | a step of maintenance is a sweep of the buckets it finds crowded |
| FlowRuns.FullMaintainExact | samples/fcache/src/fc_cache_generate.h:818-828 | maintenance of at least a whole lap leaves exactly the entries that have not expired, untouched, and its result is the drop in their number |
| FlowRuns.FullSweepExact | samples/fcache/src/fc_cache_generate.h:853-855 | so does an idle step |
| FlowRuns.LapVisitsAll | samples/fcache/src/fc_cache_generate.h:414-444 | consecutive sweeps whose widths add up to a lap miss no bucket |
| RbTreeModel.RbTree.constructor | include/rix/rix_tree.h:24-27 | an empty valid tree |
| RbTreeModel.RbTree.Transplant | include/rix/rix_tree.h:138-150 | the exact link writes of transplant |
| RbTreeModel.RbTree.RotateLeft | include/rix/rix_tree.h:151-167 | the links become those of the rotated tree |
| RbTreeModel.RbTree.RotateRight | include/rix/rix_tree.h:168-184 | the mirror image |
| RbTreeModel.RbTree.Insert | include/rix/rix_tree.h:185-258 | adds exactly elm in key order, or returns the equal node with the tree untouched; colours, black height, order and links stay valid; the fix-up terminates |
| RbTreeModel.RbTree.FixInsert | include/rix/rix_tree.h:211-256 | the insert fix-up restores the colours and keeps the order |
| RbTreeModel.RbTree.InsertStepLeft | include/rix/rix_tree.h:214-233 | one round of the insert fix-up moves the double red up or resolves it |
| RbTreeModel.RbTree.Remove | include/rix/rix_tree.h:338-452 | takes out exactly elm; colours, black height, order and links stay valid; elm is reset |
| RbTreeModel.RbTree.Unlink | include/rix/rix_tree.h:344-373 | the three ways of taking a node out, leaving a subtree, perhaps NIL, one black short |
| RbTreeModel.RbTree.FixRemove | include/rix/rix_tree.h:374-443 | the remove fix-up ends and repairs the black height, although the red-sibling case moves down first |
| RbTreeModel.RbTree.RemoveStepLeft | include/rix/rix_tree.h:379-409 | one round of the remove fix-up with the short subtree on the left |
| RbTreeModel.RbTree.Find | include/rix/rix_tree.h:311-324 | the node with the key or NIL, in no more steps than the height |
| RbTreeModel.RbTree.NFind | include/rix/rix_tree.h:325-337 | the least node not below the key |
| RbTreeModel.RbTree.Min | include/rix/rix_tree.h:259-271 | the first node in key order |
| RbTreeModel.RbTree.Max | include/rix/rix_tree.h:259-271 | the last node in key order |
| RbTreeModel.RbTree.Next | include/rix/rix_tree.h:273-291 | the next node in key order |
| RbTreeModel.RbTree.Prev | include/rix/rix_tree.h:292-310 | the previous node in key order |
| RbTreeModel.RbTree.Foreach | include/rix/rix_tree.h:80-82 | MIN and NEXT visit every node once, ascending |
| RbTreeModel.RbTree.ForeachReverse | include/rix/rix_tree.h:84-86 | MAX and PREV visit the same in reverse |
| RbTheory.LogarithmicHeight | include/rix/rix_tree.h:37-38 | a path in a tree of n nodes is at most 2 log2(n + 1) long |
| RbLinks.LinksMutual | include/rix/rix_tree.h:124-150 | parent and child indices of a valid tree agree |

## Left out

- SIMD scans, CRC32C hashing, CPU detection and dispatch tables: foreign instructions and plumbing; the scalar functions are modelled.
- Prefetches, alignment and cache-line layout: no effect on results; pipeline stages that only prefetch do nothing here.
- A full class for the fingerprint variant: it is the slot table without slot_field; only the step that differs, remove, is modelled.
- The single-table walk of the slot, fingerprint and key-only tables: the loop is that of RehashTable.Walk.
- SlotTableModel.SlotTable.Kickout: at depths that no caller uses (above 4, or above 2 from a bucket with a free slot) it claims neither that a failure leaves the arrays untouched nor that success means a chain of moves; there it keeps contents and invariants.
- RehashTableModel.RehashTable.Kickout: claims neither at those depths; the insert of this table uses none of them.
- RIX_LIST, RIX_STAILQ, RIX_TAILQ, RIX_CIRCLEQ: constant-time list edits; of the queue macros only the singly linked free list is modelled, inside the cache.
- The older cache template and the copies for other flow types: the same code with another key; one abstract key type stands for all.
- The relief helper that takes a hash and has no caller in the template.
- Struct layout: the fields of a pool entry are parallel arrays (key, hash field and slot field in one, timestamp and free link in two more); cell 0 of every node array stands for NIL, so node i is the caller's element i - 1.
- The key comparison of the tree is the order of integers, one key per node; an inconsistent comparison function is not modelled.
- Hit masks are sequences of sixteen booleans instead of 16 bits of a word.
- Bucket counts of the cache wrap with the remainder operation; that this is the masking of a power of two is proved for hash words only.
- Statistics and the removed-entry count never overflow; clocks are 64-bit values and elapsed time wraps as in the source.
- Concurrency: the structures are declared single-owner.
