# go-dbms-lab storage core in Dafny

The project models the storage core of go-dbms-lab, a small two-table database run from the command line.

**Tables.** There is a master table of Courses and a slave table of Certificates. Each table has three parts:
- a data file of fixed-size records: 108 bytes for a Course and 55 bytes for a Certificate;
- an index, which is a list of `(ID, address)` pairs kept sorted by ID;
- a junk list, which holds the offsets of logically deleted records.

**Chains.** A course's certificates form a doubly linked chain in the slave file. The course's `FirstSlaveAddress` is the head of the chain. Each link is an offset, and `-1` means no link.

**What is modelled:**
- the index helpers: add, remove, update address, exists, sort, the binary-search lookup, the record count, the subrecord count and the last-record address;
- the index and junk files as big-endian byte encodings;
- `MaxJunkSize` and `RequiresCompaction`;
- `MoveModel`, `updateLinkedListPointers` and `CompactSlaveFile`;
- the insert, delete and update handlers of both tables;
- the cascade `deleteSubrecords`.

**How the model is built.** Everything is a pure function over immutable values.
- A data file is a map from byte offset to record, plus a length.
- The sets `badReads` and `badWrites` and the flag `truncateFails` stand for the I/O errors the operating system may report. This lets the error paths be stated.
- A handler maps a `Db`, the pair of tables, to a `Step`: the new state and a status. On a failure the state is whatever the handler had already changed, because the source never rolls back.
- A walk over a `Next` chain that could loop forever gets fuel equal to the number of records. Running out of fuel is reported as `Cycles` or `Diverges`.

`internal/driver/utils.go` and `internal/driver/utils/utils.go` hold the same index helpers. The handlers call the second copy. Both map to the one module `IndexTable`.

**Behaviour of the code that the model keeps:**
- A delete is logical. The record stays in the file with `Presence = false`, and its offset goes to the end of the junk list.
- An insert takes the oldest junk offset first (first in, first out). Otherwise the master uses `len(indices) * 108`, and the slave appends at the end of the file.
- `InsertSlave` always writes the course back, even when its head does not change.
- A read at an offset where no record starts is an error in the model (see `Read` under Left out).
- `DeleteSlave` has three `if`s. The third one always holds once the first two fail.
- After a failed `updateLinkedListPointers`, the index entry of the moved record already points at the new slot.
- `CompactSlaveFile` never updates a course's `FirstSlaveAddress`. Nothing in the handlers calls it, so it is modelled as a standalone operation.

## Model

| member | source | states |
|---|---|---|
| Bytes.Fixed | internal/handlers/update_handlers.go:90-91 | clearing a field and copying text into it gives exactly `width` bytes: the text's first bytes, then zeros |
| Bytes.TrimZeros | internal/driver/utils/utils.go:121-123 | the result is a prefix of the field that does not end in a zero byte, and every byte cut off is zero |
| Bytes.TextRoundTrip | internal/driver/utils/utils.go:121-123 | text that fits the field and holds no zero byte reads back unchanged after copy-and-trim |
| Bytes.TextTruncated | internal/driver/utils/utils.go:121-123 | text longer than the field reads back cut at the field width |
| Models.NewCourse | internal/handlers/insert_handlers.go:31-38 | a new course has the given ID, no children, `Presence` set, and its text fields are the arguments fitted to 50, 15 and 30 bytes |
| DataFiles.Read | internal/driver/driver.go:88-93 | a read succeeds exactly at a non-negative, non-failing offset that holds a record, and returns that record; otherwise it reports an I/O error |
| DataFiles.Write | internal/driver/driver.go:96-111 | a write succeeds exactly at a non-negative, non-failing offset; it replaces only that record and grows the file to cover it |
| DataFiles.Truncate | internal/driver/driver.go:212-220 | a successful truncate sets the length and keeps exactly the records that fit below it, unchanged |
| IndexTable.SortIndices | internal/driver/utils.go:96-99 | the result is a permutation of the input, ascending by ID |
| IndexTable.AddIndex | internal/driver/utils/utils.go:15-23 | the result is the input plus the one new entry, as a multiset, sorted by ID |
| IndexTable.RecordExists | internal/driver/utils/utils.go:78-85 | true exactly when some entry has the ID |
| IndexTable.RemoveIndex | internal/driver/utils/utils.go:26-35 | only the first entry with the ID is cut out and the rest keep their order; an absent ID changes nothing; sortedness and unique IDs are kept |
| IndexTable.UpdateAddress | internal/driver/utils.go:35-43 | only the address of the first entry with the ID changes; length, every ID and the order stay |
| IndexTable.SearchAtLeast | internal/driver/utils/utils.go:127 | on a sorted index, `sort.Search` returns the first position whose ID is not below the key |
| IndexTable.GetAddressByIndex | internal/driver/utils/utils.go:126-132 | a hit is always a real entry; on a sorted index it hits exactly when the ID is present, at its first entry; a miss returns `(0, false)` |
| IndexTable.LookupAgreesWithScan | internal/driver/utils/utils.go:126-132 | on a sorted index, the binary search and the linear `RecordExists` agree |
| IndexTable.LookupEntry | internal/driver/utils/utils.go:126-132 | on a sorted index with unique IDs, every entry is found with its own address |
| IndexTable.AddThenLookup | internal/driver/utils/utils.go:15-23 | after adding a new ID, the lookup finds it at the given address, and IDs stay unique |
| IndexTable.RemoveThenMissing | internal/driver/utils/utils.go:26-35 | after a remove the ID is gone, and every other ID is present exactly when it was before |
| IndexTable.NumberOfRecordsCountsIds | internal/driver/utils.go:102-104 | with unique IDs, the record count equals the number of distinct live IDs |
| IndexTable.GetLastRecordAddress | internal/driver/utils.go:213-221 | on a sorted index it returns the address of the highest ID; on an empty one it returns `(0, false)` |
| IndexTable.GetLastRecordAddressNotLastInFile | internal/driver/utils.go:213-221 | an example where the highest ID sits below another record, so the answer is not the last record in the file |
| IndexTable.LastRecordAddress | internal/driver/utils.go:213-221 | the corrected reading returns an indexed address that no other indexed address exceeds |
| IndexFile.DecodeEncodeU32 | internal/driver/utils.go:46-64 | a 32-bit value written big-endian in four bytes reads back unchanged |
| IndexFile.LoadAfterWrite | internal/driver/utils.go:171-189 | loading a written index gives the same entries sorted by ID |
| IndexFile.FlushAfterReloadIsIdentical | internal/driver/utils.go:46-64 | with unique IDs, writing the index, loading it and writing it again gives the same bytes |
| IndexFile.LoadJunkAfterWrite | internal/driver/utils.go:192-211 | loading a written junk file gives the same offsets in the same order |
| IndexFile.TruncatedIndexFileRejected | internal/driver/utils.go:177-184 | an index file whose length is not a multiple of 8 fails to load |
| DeleteHandlers.DeleteSlaveFeedsCompaction | internal/driver/utils.go:165-168 | a successful certificate delete adds one junk offset, so compaction becomes recommended exactly when the junk already held at least `MaxJunkSize - 1` = 1 offset |
| DeleteHandlers.DeleteMasterFeedsCompaction | internal/handlers/delete_handlers.go:43 | a course delete adds one master junk offset, even when its final write fails, so compaction becomes recommended exactly when the master junk already held at least 1 offset |
| InsertHandlers.InsertSlaveDrainsCompaction | internal/handlers/insert_handlers.go:107-114 | a successful certificate insert consumes one junk offset when there is one, so compaction stays recommended exactly when the junk held more than `MaxJunkSize` = 2 offsets |
| Tables.ReuseKeepsDense | internal/handlers/insert_handlers.go:41-45 | moving the first junk offset into the index keeps live and junk offsets distinct, slot-aligned slots within the file |
| Tables.AppendKeepsDense | internal/handlers/insert_handlers.go:46-49 | with no junk, adding an entry at `len(indices) * size` keeps that slot discipline |
| Tables.FreeKeepsDense | internal/handlers/delete_handlers.go:43-44 | moving a deleted entry's address from the index to the junk keeps that slot discipline |
| Chains.ChainDistinct | internal/driver/utils.go:107-125 | a `Next` chain that ends at `-1` visits no offset twice |
| Chains.NumberOfSubrecordsCountsChain | internal/driver/utils.go:107-125 | on a chain that ends at `-1`, the count is the number of present nodes on the chain |
| Chains.SelfLoopCycles | internal/driver/utils.go:111-122 | a node whose `Next` points to itself makes the counting walk cycle forever |
| Chains.FindTailOfChain | internal/handlers/insert_handlers.go:121-134 | the tail walk ends at the chain's last node, which is readable, with that node's record |
| Chains.SetNext | internal/handlers/delete_handlers.go:142-154 | the read-modify-write succeeds exactly when the node is readable and writable, and changes only that node's `Next` |
| Chains.SetPrevious | internal/handlers/delete_handlers.go:156-170 | the same for `Previous` |
| Helpers.DeleteSubrecords | internal/handlers/helpers.go:192-221 | the cascade adds and removes no record offsets, fails nowhere new, only shrinks the index and only grows the junk |
| Helpers.CascadeContinues | internal/handlers/helpers.go:202-219 | one step clears the node, junks its offset, unindexes its ID, then continues from the `Next` taken before clearing |
| Helpers.CascadeOverChain | internal/handlers/helpers.go:192-221 | over a chain, the visited offsets are appended to the junk in order and their IDs are unindexed, up to and including the first failing write; only the nodes written are changed, each to its cleared form |
| InsertHandlers.InsertMaster | internal/handlers/insert_handlers.go:15-60 | a duplicate ID is rejected with nothing changed; otherwise the new course lands in the chosen slot and the index gains exactly `(id, slot)`, sorted; a failed write keeps file and index |
| InsertHandlers.InsertMasterThenRead | internal/handlers/insert_handlers.go:31-58 | after an insert, the lookup finds the ID at the slot, and the record there reads back with the given texts |
| InsertHandlers.InsertMasterKeepsDense | internal/handlers/insert_handlers.go:40-58 | the chosen slot was not live, and the slot discipline holds after the insert |
| InsertHandlers.AttachToChain | internal/handlers/insert_handlers.go:117-145 | on a non-empty chain, the old tail's `Next` becomes the new offset, the new node's `Previous` is the old tail, and the course is unchanged |
| InsertHandlers.InsertSlave | internal/handlers/insert_handlers.go:63-162 | a duplicate ID or an unknown course is rejected with nothing changed; on success the slave index gains exactly `(id, slot)`, sorted, and the master index and junk are untouched |
| InsertHandlers.InsertSlaveDone | internal/handlers/insert_handlers.go:84-159 | a successful insert is exactly: attach to the chain, write the new node, write the course back, add the index entry |
| InsertHandlers.InsertSlaveThenRead | internal/handlers/insert_handlers.go:98-159 | after an insert, the lookup finds the ID at the slot, which holds a present, tail certificate with the given name |
| InsertHandlers.InsertSlaveFirstChild | internal/handlers/insert_handlers.go:117-118 | for a course with no children, its head becomes the new offset, and the new node has both links `-1` |
| InsertHandlers.InsertSlaveAppends | internal/handlers/insert_handlers.go:119-145 | otherwise the course is unchanged, the old tail points at the new node and back, and the chain grows by that node |
| InsertHandlers.InsertSlaveKeepsLinked | internal/handlers/insert_handlers.go:117-153 | inserting into a doubly linked slave file keeps it doubly linked |
| InsertHandlers.InsertSlaveKeepsLayout | internal/handlers/insert_handlers.go:106-159 | the chosen slot was not live, and the slot discipline and file length hold after the insert |
| DeleteHandlers.DeleteMaster | internal/handlers/delete_handlers.go:15-55 | an unknown ID or an unreadable course changes nothing; otherwise the children are cascaded, the address is junked and the ID unindexed, and then the course is rewritten cleared; if that last write fails, the file keeps the old course but the junk and index changes stay |
| DeleteHandlers.DeleteMasterCascade | internal/handlers/delete_handlers.go:35-44 | the slave table after a master delete is the cascade over the course's chain: offsets junked in chain order, IDs unindexed, nodes cleared |
| DeleteHandlers.DeleteMasterKeepsDense | internal/handlers/delete_handlers.go:43-46 | a master delete keeps the master slot discipline |
| DeleteHandlers.DeleteMasterRemovesId | internal/handlers/delete_handlers.go:44 | after a master delete the ID is gone, and every other ID is present exactly when it was before |
| DeleteHandlers.ClearedChainKeepsLinked | internal/handlers/helpers.go:192-221 | clearing every node of a chain of present certificates whose head has no predecessor leaves all other chains doubly linked: no live certificate outside the chain points into it |
| DeleteHandlers.DeleteMasterKeepsLinked | internal/handlers/delete_handlers.go:35-51 | when the course's chain is present and every write on it succeeds, the slave file stays doubly linked after a master delete, whether or not the final course write succeeds |
| DeleteHandlers.Locate | internal/handlers/delete_handlers.go:65-84 | the certificate is found through the slave index and read, and its course through the master index |
| DeleteHandlers.DeleteSlave | internal/handlers/delete_handlers.go:58-226 | an unknown ID changes nothing, and a failure leaves the index and junk as they were. A success unlinks the node, junks its address and unindexes its ID, and leaves every other record as it was except for these. Head: the course's head becomes the node's `Next`, and that successor, which must exist, loses its `Previous`. Middle: the predecessor's `Next` and the successor's `Previous` skip the node, and the master table is untouched. Tail: the predecessor's `Next` becomes `-1`, and the master table is untouched |
| DeleteHandlers.DeleteSlaveFixedAgrees | internal/handlers/delete_handlers.go:86-226 | the corrected delete differs from the original only for a node with no neighbours |
| DeleteHandlers.DeleteOnlyChildFails | internal/handlers/delete_handlers.go:87-109 | as written, deleting an only child clears the course's head, then fails reading offset `-1`, leaving the node present and indexed |
| DeleteHandlers.OnlyChildExample | internal/handlers/delete_handlers.go:87-109 | a concrete one-course, one-certificate database where the written delete fails and the corrected one succeeds |
| DeleteHandlers.DeleteOnlyChildFixed | internal/handlers/delete_handlers.go:87-132 | the corrected delete of an only child clears the course's head, unlinks and junks the node, and unindexes its ID |
| DeleteHandlers.DeleteHeadRepoints | internal/handlers/delete_handlers.go:87-101 | deleting a head makes the course's head the deleted node's `Next` |
| DeleteHandlers.LinkedAfterUnlinkHead | internal/handlers/delete_handlers.go:103-128 | unlinking a head keeps the file doubly linked |
| DeleteHandlers.LinkedAfterUnlinkMiddle | internal/handlers/delete_handlers.go:139-181 | unlinking a middle node keeps the file doubly linked |
| DeleteHandlers.LinkedAfterUnlinkTail | internal/handlers/delete_handlers.go:191-217 | unlinking a tail keeps the file doubly linked |
| DeleteHandlers.DeleteSlaveFixedKeepsLinked | internal/handlers/delete_handlers.go:86-225 | a successful corrected slave delete of a present certificate keeps the slave file doubly linked |
| DeleteHandlers.DeleteSlaveDoneAgrees | internal/handlers/delete_handlers.go:86-226 | whenever the delete as written succeeds, the corrected delete gives the same result |
| DeleteHandlers.DeleteSlaveKeepsLayout | internal/handlers/delete_handlers.go:119-132 | a successful slave delete, as written, keeps the slot discipline and the file length |
| DeleteHandlers.DeleteSlaveKeepsLinked | internal/handlers/delete_handlers.go:86-225 | a successful slave delete, as written, of a present certificate keeps the slave file doubly linked |
| UpdateHandlers.UpdateMaster | internal/handlers/update_handlers.go:15-61 | it fails on no arguments, on an unknown ID, or on a failed read or write, changing nothing; on success only the record at the found address changes, to the edited course |
| UpdateHandlers.UpdateMasterThenRead | internal/handlers/update_handlers.go:40-55 | each field given a word other than `-` reads back as that word; other fields, the ID, the head and `Presence` are kept |
| UpdateHandlers.UpdateMasterIdempotent | internal/handlers/update_handlers.go:33-58 | repeating a successful update changes nothing more |
| UpdateHandlers.UpdateMasterAllDashes | internal/handlers/update_handlers.go:40-58 | an update whose words are all `-` leaves the database as it was |
| UpdateHandlers.UpdateSlave | internal/handlers/update_handlers.go:64-103 | `*` reports nothing to update and changes nothing; otherwise only the name of the found certificate changes, and links, index and junk are kept |
| UpdateHandlers.UpdateSlaveThenRead | internal/handlers/update_handlers.go:89-97 | the new name reads back, and ID, course, `Presence` and links are kept |
| UpdateHandlers.UpdateSlaveKeepsLinked | internal/handlers/update_handlers.go:82-100 | an update keeps the slave file doubly linked |
| Compaction.MoveModel | internal/driver/driver.go:114-127 | a move succeeds exactly when the source is readable and the target writable, and writes at the target the record read from the source |
| Compaction.UpdateLinkedListPointers | internal/driver/driver.go:179-209 | only the predecessor's `Next` and the successor's `Previous` can change; on success both point at the new address; a failure keeps earlier writes |
| Compaction.MoveOne | internal/driver/driver.go:143-160 | one move keeps every ID and moves only one entry's address, to the target; the target then holds the moved certificate's body, and no other record's body changes |
| Compaction.CompactLoop | internal/driver/driver.go:143-161 | the loop as written keeps the IDs in place and never moves a record to a higher address |
| Compaction.CompactSlaveFile | internal/driver/driver.go:130-176 | relative to the index sorted by descending address, IDs are kept and addresses never grow; success returns empty junk and a file of `len(indices) * 55` bytes |
| Compaction.ExampleLoop | internal/driver/driver.go:143-161 | on a six-slot file the written loop makes only two moves, to slots 55 and 165 |
| Compaction.CompactionDropsRecord | internal/driver/driver.go:130-176 | on that file, compaction as written points an entry past the truncated end and leaves the index unsorted, so ID 3 is not found |
| Compaction.CompactLoopFixed | internal/driver/driver.go:143-161 | the corrected loop keeps IDs in place, never raises an address, and keeps offsets non-negative |
| Compaction.PermutedKeepsDense | internal/driver/driver.go:131-138 | sorting the junk and the index does not disturb the slot discipline |
| Compaction.FitsBelowLive | internal/driver/driver.go:143-165 | with the corrected pairing, every live record ends in the first `len(indices)` slots, so the truncate keeps it |
| Compaction.CompactSlaveFileFixed | internal/driver/driver.go:130-176 | the corrected compaction returns an index sorted by ID with the same size and unique IDs; success returns empty junk and a file of `len(indices) * 55` bytes |
| Compaction.CompactFixedKeepsRecords | internal/driver/driver.go:130-176 | after a successful corrected compaction, every ID is still found, at an address holding the same certificate body; the table is dense with no junk and needs no compaction |

## Left out

- Argument parsing (`strconv.Atoi`) and the `uint32(id)` conversion: handlers take already parsed IDs and texts. An update's arguments are the words after the ID.
- Logging and console output, `printMasterQuery` and `printSlaveQuery`: presentation only.
- Opening, seeking and closing OS files, `NewTable`, `CreateTable` and `WriteServiceData`: a data file is a map from offset to record, and I/O errors are the fault sets. A failing seek to the end of the slave file is not modelled.
- The insert and delete handlers index their arguments without counting them, so too few words make the Go program panic. The model takes parsed arguments, so that case cannot arise.
- `sort.Slice` is not stable; it is modelled by a deterministic insertion sort. The two agree whenever the keys are distinct, which the unique-ID and distinct-address invariants give.
- NumberOfSubrecordsCountsChain: proved for chains that end at `-1`. On a cycle the Go loop never ends; the model reports `Cycles`, proved only for a node that points to itself (SelfLoopCycles).
- InsertMasterKeepsDense: requires that the appended slot stays below 2^32, because the source stores the offset as `uint32` and wraps above that.
- InsertSlaveKeepsLayout: requires the same 32-bit bound on the appended slot.
- InsertSlaveKeepsLinked: requires that the old tail is present and the chosen slot holds no present record; the slot discipline gives both, but the lemma takes them as stated preconditions.
- DeleteMasterKeepsDense: states the master slot discipline only. The slave table after the cascade is described by DeleteMasterCascade, not proved dense.
- DeleteMasterKeepsLinked: requires every certificate on the course's chain to be present and writable. When a write fails on any node but the first, the cascade stops with the earlier nodes cleared while the failing node stays live and still points back at a cleared one, so the slave file is no longer doubly linked. The source does the same and only logs the error.
- DeleteSlaveFixedKeepsLinked: stated for the corrected delete. DeleteSlaveKeepsLinked carries it over to the delete as written, whose only difference is that it fails on an only child (DeleteOnlyChildFails).
- Read: a read at an offset where no record starts fails as end of file. In Go, `binary.Read` reports end of file only when fewer than a record's bytes remain after the offset. A read inside the file but off a record start decodes whatever bytes lie there. Such an offset is the middle of a record, or a gap left by a write past the end; a zero gap decodes as a certificate with `Next = 0`. The model does not represent raw bytes. Its table invariants (`Layout`, `Linked`) keep every indexed address and every link on a record start, where the two behaviours agree.
- CompactSlaveFile: states IDs and the direction of moves only, because as written it loses records (see Findings).
- CompactFixedKeepsRecords: keeps each certificate's body, but the doubly linked property after compaction is not proved. Compaction also leaves a course's `FirstSlaveAddress` pointing at the old offset when the head moves, as the source does.

## Findings

| source | as written | input that shows it | evidently intended | confidence | as-written member | corrected member |
|---|---|---|---|---|---|---|
| internal/driver/driver.go:143-160 | the loop advances both `i++` and `junk = junk[1:]`, so the i-th record is paired with junk slot 2i | six slots, live IDs 1, 2 and 3 at 0, 220 and 275, junk 55, 110 and 165: ID 2 moves to 165, which the truncate to 165 bytes then drops | pair the i-th highest record with the i-th lowest free slot | high (not executed) | Compaction.CompactionDropsRecord | Compaction.CompactFixedKeepsRecords |
| internal/driver/driver.go:136-175 | the index is left sorted by descending address, and the binary search needs it sorted by ID | the same input: after compaction the index is not sorted by ID, and ID 3 is not found | sort the index by ID again before returning | high (not executed) | Compaction.CompactionDropsRecord | Compaction.CompactSlaveFileFixed |
| internal/handlers/delete_handlers.go:87-117 | the head case always reads and rewrites the node at `Next`, even when `Next` is `-1` | one course with one certificate (both links `-1`): the course's head is cleared, then the read at `-1` fails, and the certificate stays present and indexed | skip the successor update when there is none | high (not executed) | DeleteHandlers.DeleteOnlyChildFails | DeleteHandlers.DeleteOnlyChildFixed |
| internal/driver/utils.go:213-221 | returns the address of the highest ID, documented as the last record in the file | index `[(1, 108), (2, 0)]` returns 0, while the record at 108 is later in the file | the highest address in the index | medium (not executed) | IndexTable.GetLastRecordAddressNotLastInFile | IndexTable.LastRecordAddress |
