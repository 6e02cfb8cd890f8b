# appendstore in Dafny

A model of appendstore, an embedded key-value store for Go that keeps its data in one append-only log
file: the record format and its readers and writer, the log, the index and the cache over it, compaction
and its crash protocol, migration from older formats, downgrading to them, and goroutines sharing a store.
Everything is proved for all inputs, all files, all runs or all interleavings; there are no bounds.

Pure code of the original (decoders, validators, encodings) is modelled by functions, and code that updates
things in place by classes and methods with loops: `AppendLog`, `Index`, `LruCache`, `Store`, the byte
reader, the attribute encoder and the downgrade. Each method is proved against a function of its inputs, and
the laws are proved about those functions. The two protocols are state machines: `Lifecycle` takes one file
operation at a time, with a crash possible after each and failures possible at each; `Concurrency` takes one
access to the shared state at a time, by any number of goroutines.

| file | what it is about |
|---|---|
| `Bytes`, `Crc32c`, `Order`, `Decimal` | little-endian numbers, CRC-32C, sorting and sums over sets, decimal numerals |
| `Attributes`, `Record`, `Legacy` | attribute blocks, version 4/5 records, version 1/2/3 records |
| `Damage`, `DamagedLogs` | torn and damaged records, the random-access validator, and what damage costs a log |
| `Reader`, `Scan` | the streaming readers, the header, and the scan of a whole log |
| `LogMap`, `KeyOrder` | what a log means: last record wins, extents, file order, one append |
| `Compaction`, `Runs` | rewriting the live records; whole runs of operations against a map |
| `Log`, `Index`, `Cache`, `Store`, `StoreRuns` | the classes, and a store put through any sequence of operations |
| `Downgrade` | writing version 3 and version 4 logs |
| `Disk`, `FileMeaning`, `Lifecycle`, `Durability` | files and recovery, what a file means to an open, crash safety over whole runs, what an acknowledgement is worth |
| `FailedRollback`, `FailedWrite` | what failing renames and failing writes can lose, with exact conditions |
| `Concurrency`, `Visibility`, `Scans` | goroutines on one store; what a write means for later reads; full scans and the memo they share |

## Where the promise does not hold

The code is modelled as it is. Where it does not keep what its comments say, a lemma gives the exact
condition under which it does.

- A scan (`ForEach`) takes its snapshot of the keys from a memo that it may have to rebuild, and it writes that
  memo under the read lock only (index.go:104-108, store.go:520-522). Two scans on a dirty memo can collide: one
  takes a snapshot of blank keys, misses every live key but the empty one, and delivers that one more than once
  (`Scans.ScansCollide`, from every quiet point with a live non-empty key; `Scans.CollidingStore` is a store that has
  one). `Scans.ScansSafeIff` is the exact condition: from a point where nobody holds the lock, no scan can take a
  wrong snapshot before the next write if and only if the memo is clean there or no key but the empty one is live;
  a completed snapshot leaves it clean (`Scans.ScanLeavesClean`), so one scan alone after each write makes the
  others safe. `Scans.SnapshotExactIff` says of a single snapshot exactly when it is right. Once no reader is
  inside, the memo is right or dirty, so compaction is never misled (`Scans.CompactionGoesByFileOrder`).
- The checksum is said to detect corruption in structural fields (log.go:97-98). The length field is outside
  it: `DamagedLogs.ChangedLengthDropsRestIff` says exactly which overwritten lengths make a scan drop a record and
  everything behind it as a torn tail, and `DamagedLogs.LengthLosesPuts` gives two complete puts lost that way.
  Random access does notice (`Damage.ChangedLengthIsRejected`).
- A complete, checksummed record whose attribute block claims more than it holds is not reported but dropped as a
  torn tail, with everything behind it (`DamagedLogs.ShortBlockDropsRestIff`, `DamagedLogs.ShortBlockLoses`).
- Compaction replaces the log through a "recoverable" transaction (store.go:791-792). It is, unless a rename
  fails and so does the rename that should undo it: opening the missing log then makes an empty one, which
  recovery prefers to both copies. `FailedRollback.FailedRollbackSafeIff` is the exact condition, and
  `FailedRollback.TwoFailuresLoseData` a reachable run.
- A write that fails half way leaves bytes behind the write position. A later, shorter append that succeeds
  leaves part of them behind its record, where the next open reads them: `FailedWrite.RetrySafeIff` is the
  exact condition, and `FailedWrite.RetryCanRefuse` a case in which the file can no longer be opened. If a
  compaction fails in between, the log is reopened without a scan and the next append goes behind the left-over
  bytes: a scan finds its record if and only if there were none (`FailedWrite.AppendBehindIff`). What goes further behind
  can be found, together with a value that was never acknowledged (`FailedWrite.LaterAppendsCanBeFound`).
- An interrupted header upgrade from version 4 is harmless exactly when bytes 8 to 16 are zero
  (`FileMeaning.InterruptedUpgradeSafeIff`), which old writers guaranteed.
- `SetCapacity` with a negative capacity evicts from an empty list for ever (`Cache.ShrinkEndsIff`).
- Downgrade is said to write to the source only to drop a torn tail (downgrade.go:61-62). It does so if and only if
  there is a main log, it is not empty, and nothing is left of a compaction (`Downgrade.OnlyRepairedIff`); otherwise
  it creates the source or moves files (`Downgrade.CreatesSource`, `Downgrade.MovesBackup`).

## Model

| member | source | states |
|---|---|---|
| Bytes.NumberOfLittleEndian | log.go:422 | A length that fits its field is read back as it was written. |
| Bytes.LittleEndianOfNumber | log.go:613 | Reading a field as a number and writing it again gives the same bytes, so a field has one spelling. |
| Bytes.PlaceValues | log.go:422 | A field of two or four bytes has its least significant byte first. |
| Crc32c.UpdateConcat | log.go:798-851 | Hashing a record in any chunks is hashing it whole. |
| Crc32c.OneByteChangesChecksum | log.go:97-105 | Changing any one byte, to any other value, changes the checksum: for all data, all positions and both values. |
| Crc32c.TableStep | log.go:105 | A step through the 256-entry lookup table is the bit-by-bit polynomial division. |
| Crc32c.CheckValue | log.go:105 | The published check value: the checksum of the digits 1 to 9 is E3069283. |
| Crc32c.FourBytesGiveChecksum | log.go:97-105 | Whatever stands before and behind four free bytes, they can be chosen to give any checksum: a match is no proof that a record was written. |
| Order.LexLessIff | index.go:150 | A string is before another if and only if it is a proper prefix or the first byte that differs is smaller. |
| Attributes.DecodeOfEncode | log.go:495-577 | Every attribute map the writer accepts is read back unchanged. |
| Attributes.DecodedIsAcceptable | log.go:538-577 | Every block the reader accepts, within the size limit, holds a map that the writer accepts and encodes in the same number of bytes. |
| Attributes.CanonicalIff | log.go:520-535 | An accepted block is what the writer would write for its map if and only if its names are strictly increasing. |
| Attributes.EncodedBlockSize | log.go:502-519 | The size added up before encoding, in whatever order the map is visited, is the size of the block. |
| Attributes.MeasureAttributes | log.go:502-519 | The measuring loop accepts exactly the maps within the limits, whatever the visiting order, and its total is the block's size. |
| Attributes.FillPairs | log.go:524-534 | The filling loop ends exactly at the end of the measured buffer and leaves the pairs in it, nothing skipped or overwritten. |
| Attributes.EncodeAttributes | log.go:495-536 | The procedure succeeds exactly on acceptable maps and returns the canonical block. |
| Attributes.ReadAttributes | log.go:538-577 | The decoding loop returns the specified map or the specified error for every byte sequence. |
| Attributes.BlockAcceptedIff | log.go:538-577 | A block is read as a list of pairs if and only if there are at most 4096, they fit and do not repeat, and the block is their count and their encodings, nothing more. |
| Attributes.ShortBlockIff | log.go:549-563 | A block ends early if and only if fewer pairs than it announces are there and the header or the text of the next one is cut off; a name that does not fit is corruption. |
| Decimal.ParseIntIff | downgrade.go:285-295 | The number parser accepts a text with value i exactly when i is a 64-bit integer and the text is an optional sign, any zeros and the digits of i. |
| Decimal.ParseOfFormat | log.go:963 | A formatted 64-bit integer parses back to itself. |
| Decimal.FormatIntShape | log.go:963 | A formatted integer is a minus exactly when negative and the digits of its size, without a leading zero. |
| Decimal.ParseBoolIff | downgrade.go:254-262 | The flag parser knows exactly six spellings of true and six of false. |
| Record.ValidateExtensions | log.go:592-605 | The loop accepts exactly the areas that are a run of entries whose lengths stay inside the area. |
| Record.FramedIff | log.go:592-605 | An area is framed if and only if it is a list of entries, each a 16-bit tag, a 32-bit length and that many bytes, one after the other. |
| Record.ParseOfFrame | log.go:784-870 | Wherever the frame of a record within the limits stands, the reader reads exactly its fields and stops behind it. |
| Record.AcceptsIff | log.go:784-870 | The reader's language: it accepts at a position if and only if the frame of some record within the limits, with framed extensions and a decodable block, stands there. |
| Damage.TornFrame | log.go:784-870 | Every strict prefix of a frame at the end of the data reads as end of input, never as corruption and never as a record. |
| Damage.ChangedByteIsMalformed | log.go:849-853 | Any one changed byte behind the length field of a complete record is reported as corruption, never as a torn tail or another record. |
| Damage.ChangedLengthReadsAsTornIff | log.go:784-821 | A record whose length field is overwritten reads as a torn tail if and only if the new length still has room for the known fields, is within the extension limit, and runs past the end of the data. |
| Damage.CompleteRecordReadsAsTornIff | log.go:549-563 | A complete record reads as a torn tail if and only if its extensions are framed and its attribute block ends early. |
| DamagedLogs.ChangedLengthDropsRestIff | log.go:755-769 | On a whole log: overwriting the length field of a record makes the scan keep exactly the records before it and drop it with everything behind it if and only if the new length has room for the known fields, is within the extension limit, and runs past the end of the file. |
| DamagedLogs.LengthLosesPuts | log.go:755-769 | Over every clean log, two complete puts that a scan finds are both lost to one overwritten length field. |
| DamagedLogs.ShortBlockDropsRestIff | log.go:755-769 | On a whole log: a complete record is dropped with everything behind it if and only if its extensions are framed and its attribute block ends early. |
| DamagedLogs.ShortBlockLoses | log.go:549-551 | A concrete such record, behind any clean log and before anything. |
| Damage.ReadersAcceptSame | log.go:611-634 | The streaming reader accepts an extent if and only if the random-access validator accepts its bytes and they are within limits, framed and decodable. |
| Damage.ReadersAgree | log.go:611-634 | On every record the streaming reader delivers, the validator finds the same value and the same extension area. |
| Damage.ChangedLengthIsRejected | log.go:611-634 | The validator rejects a stored record with any other length in its length field. |
| Damage.ChangedByteIsRejected | log.go:611-634 | The validator rejects a stored record with any one byte changed, the length field included. |
| Legacy.ParseOfV3Frame | log.go:872-987 | A version 3 record is read back with its key, the place of its value, its tombstone flag, and exactly eight attributes, each named with its text. |
| Legacy.ParseOfV2Frame | log.go:872-987 | A version 1 or 2 record is read back with its key, the place of its value, its tombstone flag, and exactly the five attributes category, provider, status, name and total_size. |
| Legacy.LegacyAcceptsIff | log.go:872-987 | The legacy reader accepts at a position if and only if a frame of its version within the limits stands there. |
| Legacy.LegacyIsAcceptable | log.go:955-977 | Every set of attributes a legacy record can carry is one the current writer accepts. |
| Legacy.LegacyIsRewritable | log.go:872-987 | Every record the legacy reader accepts, in versions 1 to 3, passes the limits of the current writer, so a migration cannot fail on it. |
| Reader.HashValue | log.go:830-836 | Copying a value through the hash in chunks hashes exactly its bytes, and fails exactly when they are not all there. |
| Reader.ReadFixed | log.go:784-815 | The length and fixed fields are refused or found short exactly as specified, and otherwise delivered. |
| Reader.ReadAreas | log.go:816-844 | The areas are delivered and hashed in file order, and the read fails exactly when they are not all there. |
| Reader.ReadRecordFrom | log.go:784-870 | The streaming reader, field by field over a moving position, gives the specified outcome for all data and stands behind the record on success. |
| Reader.ReadLegacyRecordFrom | log.go:872-987 | The same for version 1, 2 and 3 records. |
| Scan.HeaderReadBack | log.go:302-359 | Every header this build can read is read back as it was written. |
| Scan.HeaderOutcome | log.go:332-359 | For all bytes, exactly when a header is readable, as which version and masks, and which of the three errors comes otherwise. |
| Scan.HeaderWritten | log.go:332-359 | What a header of any version with any masks is read as, newer versions and unknown features included. |
| Scan.ParseLocal | log.go:784-987 | An accepted record, in any version, depends on nothing behind it. |
| Scan.ScanSplit | log.go:732-780 | What follows a cleanly scanned log is scanned as if it stood alone. |
| Scan.ScanTruncated | log.go:755-769 | A log cut where its scan stopped has the same records and a clean end. |
| Scan.ScanIgnoresHeader | log.go:103-104 | A version 4 and a version 5 log with the same body scan alike. |
| Scan.TornTailExact | log.go:755-769 | A clean log followed by any non-empty strict prefix of one more frame scans to exactly its own records and stops exactly at its end. |
| Scan.TornLegacyFrame | log.go:872-987 | Every strict prefix of a version 1, 2 or 3 frame at the end of the data reads as end of input. |
| Scan.LegacyTornTailExact | log.go:755-769 | A clean legacy log followed by such a prefix scans to exactly its own records. |
| Scan.LegacyMalformedIff | log.go:872-987 | A legacy record is corruption if and only if its key or its value announces more than the limit. |
| Scan.ChangedByteRefused | log.go:770-771 | One changed byte behind the length field of any record, anywhere in a log, makes the scan report corruption at that record after delivering those before it. |
| LogMap.LastRecordWins | store.go:264-285 | The rebuilt index holds a key exactly when the key's last record is no tombstone, and then that record's extent and attributes. |
| LogMap.ScanTiles | log.go:732-780 | The delivered records tile the file from the header to the end of the scan, and each record's value and extensions lie inside it. |
| LogMap.ExtentsDisjoint | index.go:154-160 | Live records occupy pairwise disjoint extents inside the scanned part. |
| LogMap.SpaceConserved | index.go:154-160 | The live sizes add up to no less than nothing and no more than the scanned part. |
| LogMap.RepairPreserves | log.go:755-769 | Cutting off a torn tail keeps records, index and contents, and leaves a log that needs no repair. |
| LogMap.AcceptedWithinLimits | log.go:409-412 | Whatever passes the writer's other checks is within the reader's limits and its length fits 32 bits, so the last size check never refuses. |
| LogMap.AppendAcceptsIff | log.go:386-412 | What the writer accepts, in numbers: key, value, extensions, attributes and their block. |
| LogMap.AppendLayout | log.go:413-443 | Where each field of an appended record is: the lengths, the flags, the areas in order, and the checksum over what. |
| LogMap.ParseOfAppend | log.go:383-453 | What the writer appends is read back as exactly its arguments, at the offsets it returned. |
| LogMap.RecordRefines | store.go:264-285 | One more complete record at the end of a clean log, in any version: scan, index and contents gain exactly it. |
| LogMap.AppendRefines | log.go:383-453 | One append to a clean log: the scan gains exactly that record, the index its entry, and the contents change as the operation says. |
| LogMap.ScannedIsRewritable | log.go:383-453 | Whatever a scan delivers, in any version, the writer accepts again. |
| LogMap.ContentsIgnoreHeader | store.go:631-638 | A version 4 log means the same with a version 5 header. |
| KeyOrder.OffsetOrderUnique | index.go:89-110 | There is only one order of the keys by offset. |
| KeyOrder.IndexOffsetsDistinct | index.go:89-110 | In the index of a scanned log no two keys share an offset, so sorting by offset is deterministic. |
| Compaction.RewriteScans | store.go:729-770 | Writing any set of acceptable items in any order of their keys gives a clean log of exactly those items, in that order, with no dead space. |
| Compaction.CompactionPreserves | store.go:690-770 | From any readable version: the rewritten log has a fresh current header, scans cleanly, holds the same keys, values, attributes and extension areas in the same file order, and no dead space. |
| Compaction.CompactionIdempotent | store.go:690-770 | Compacting a compacted log gives the same bytes. |
| Compaction.CompactionCopiesBytes | store.go:729-770 | For a log this writer wrote, the compacted body is exactly the stored bytes of the live records, in file order. |
| Compaction.CompactionReclaims | store.go:729-770 | For a log this writer wrote, the compacted file is the header and the live sizes, so the rest is what is reclaimed. |
| Compaction.AppendKeepsCanonical | log.go:383-453 | Appending to a log this writer wrote gives such a log again. |
| Compaction.DeadRatioInRange | store.go:598-611 | The dead share of every log is between 0 and 1. |
| Compaction.CompactedNeedsNoCompaction | store.go:598-611 | A compacted log never asks for compaction: its dead bytes exceed no share of its data. |
| Runs.StepRefines | store.go:346-477 | On a log this writer wrote, each operation on the file is the same operation on the map it means, and keeps the log so. |
| Runs.RunRefines | store.go:152-842 | The store refines a map: after every sequence of puts, deletes, compactions and reopenings, accepted or refused, the log means exactly what the same operations make of an empty map. |
| Runs.LastWriteDecides | store.go:346-477 | After every run, the log holds a key exactly when the last accepted put or deletion of it was a put, and then with that value and those attributes. |
| Runs.NeverWritten | store.go:346-477 | And holds no key that was never put. |
| Runs.RunConservesSpace | store.go:598-611 | After every run the live size is within the data and the dead share within 0 and 1. |
| Runs.TombstoneAccepted | store.go:446-477 | A key that any scan delivered can be deleted. |
| Log.OpenLog | log.go:166-192 | A log is opened exactly when the file is empty or its header is readable, with the header's version and masks. |
| Log.AppendLog.CheckAppend | log.go:386-412 | Which error is reported, exactly, for each of the six, and success exactly on acceptable arguments to a current, writable log. |
| Log.AppendLog.Encode | log.go:413-443 | Filling the reused buffer, or a new one when it is too small, leaves exactly the record's bytes in it, none of an earlier record. |
| Log.AppendLog.Append | log.go:383-453 | Whatever the reused buffer held, the bytes written are the record's; success, refusal and failed write each leave exactly the stated file and write position. |
| Log.AppendLog.ReadAreas | log.go:649-730 | Reading through the map or from the file gives the same result: the areas the validator finds at the extent, or an error. |
| Log.AppendLog.MappedRecord | log.go:483-489 | Bytes served from the map are the file's bytes at that extent. |
| Log.AppendLog.Iterate | log.go:732-780 | The scanning loop delivers the specified records and outcome; a torn tail is cut off the file exactly when no unknown read-only feature is set. |
| Log.AppendLog.SetVersion | log.go:316-326 | The header reads back as the new version, and between versions 4 and 5 the scan is unchanged. |
| Log.AreasOfScanned | log.go:649-730 | Random access at the extent of a scanned record finds the value and extensions the scan located. |
| Log.ChangedByteUnreadable | log.go:649-730 | Changing any one byte of a stored record makes every random read of it fail. |
| Index.Index.Put | index.go:52-60 | The entry is replaced and every secondary bucket again holds exactly the keys that carry its value, with no empty bucket. |
| Index.Index.Delete | index.go:69-75 | The same for removal, of a present or an absent key. |
| Index.UnindexAgrees | index.go:192-205 | Taking an entry out of the buckets of a field leaves them exact for the remaining keys. |
| Index.EnindexAgrees | index.go:178-190 | Adding an entry to the buckets of a field leaves them exact with the new key. |
| Index.Index.KeysSortedByOffset | index.go:89-110 | With or without the memo the result is the keys in file order, and the memo is never stale. |
| Index.Index.KeysBy | index.go:131-142 | Exactly the keys whose indexed attribute has the value, each once; none for a field that is not indexed. |
| Index.Index.AttributeValues | index.go:144-152 | The values present for an indexed field, each once, in increasing byte order. |
| Index.Index.StoredTotal | index.go:154-160 | The sum of the stored sizes, whatever order the map is visited in. |
| Cache.LruCache.Get | cache.go:33-43 | The held value, which becomes the newest; nothing else moves. |
| Cache.LruCache.Put | cache.go:46-66 | The key becomes the newest; a new key evicts only as many of the oldest as the capacity demands. |
| Cache.LruCache.EvictOldest | cache.go:120-127 | Exactly the oldest element goes, from the list and from the map; nothing happens to an empty cache. |
| Cache.LruCache.Remove | cache.go:69-77 | The key is gone and the order of the others is unchanged. |
| Cache.LruCache.SetCapacity | cache.go:96-104 | The newest that fit the new capacity are kept, in order. |
| Cache.LruCache.Keys | cache.go:130-139 | The held keys, newest first. |
| Cache.ShrinkEndsIff | cache.go:96-104 | Evicting from the list until it fits the new capacity comes to an end if and only if the capacity is not negative. |
| Cache.KeepsMostRecent | cache.go:33-104 | After any history of reads, removals, clearings and capacity changes the cache holds exactly the first of the keys read and not removed since, newest first, as many as the capacities of the history left room for. |
| Cache.RecentIff | cache.go:33-94 | Those keys are exactly the ones that were read and neither removed nor cleared since. |
| Cache.RecentOrder | cache.go:33-66 | And of two of them the one whose last read is later comes first. |
| Cache.ReadsFill | cache.go:46-66 | With reads only, those are all of them, up to the capacity. |
| Store.LiveIsReadable | store.go:390-425 | Every key of the index of a scanned log is readable at its extent, with the contents the log means. |
| Store.Store.Recover | store.go:264-285 | Succeeds exactly when the log is not corrupt, and then log, index and cache agree and mean what the file held; a read-only log keeps its bytes. |
| Store.Store.Put | store.go:346-387 | Exactly a map update on success, and when only the sync after it fails; no change of meaning otherwise, and which result exactly when; a refusal leaves every byte of the file; index, cache and log stay in agreement and nothing else is touched. |
| Store.Store.Delete | store.go:446-477 | Exactly a removal on success, and when only the sync after it fails; not-found exactly for absent keys, no change of meaning otherwise; a refusal leaves every byte of the file. |
| Store.Store.Get | store.go:390-425 | Through the cache or the log: the live value, or that there is none; a valid store never fails to read. |
| Store.Store.ReadForCopy | store.go:738-743 | The value, extensions and attributes read for copying are the live ones, in every log version. |
| Store.Store.BuildCompacted | store.go:729-770 | The copying loop produces exactly the compacted file and the index a scan of it would build, unless the copying of one of the live records fails. |
| Store.Store.Compact | store.go:690-842 | On success, and when only the cleanup after it fails, the log is the compacted file with an index over it and an empty cache; when copying fails nothing changes; when the swap fails the log is the old file opened again. The contents are unchanged in every case, except that a reopened log counts in what a failed write left behind. |
| Store.Store.ReopenOld | store.go:794-809 | Opening the old log again keeps its bytes and moves the write position to its end; if it was there already the store is as it was. |
| Store.Store.ForEach | store.go:515-546 | Undisturbed, it visits the live keys in file order with their live values, each once, all of them or up to the visit at which the callback fails; a closed store visits none. |
| Store.Store.CompactionDue | store.go:598-611 | Due if and only if there is data and its dead bytes exceed the threshold times the data; for a log this writer wrote, if and only if a compaction would make the file smaller by more than that. |
| Store.OpenStore | store.go:152-233 | A new store is returned exactly when the file can be opened and, if old, may be migrated; it is current, holds exactly what the file meant in any version, and a read-only file keeps its bytes. |
| Store.Migrate | store.go:618-645 | Migrating from any older version keeps the contents and makes the log current. |
| Store.UpgradeHeader | store.go:634-638 | Migrating version 4 keeps every record byte and the contents. |
| Store.Reopen | store.go:152-285 | Opening the file of a store again succeeds exactly when what lies behind the write position does not read as corruption; if the scan ends at the write position it rebuilds the same index, entry for entry, and the same contents. |
| StoreRuns.RunStore | store.go:152-842 | The class refines a map: a store opened on a new file and put through any sequence of puts, deletes, compactions and reopenings holds exactly what the same operations make of an empty map, and its file is byte for byte the one of the model of runs. |
| Downgrade.AcceptedIffExpressible | downgrade.go:232-283 | A record has a version 3 form if and only if it carries no extensions, only the eight known attributes, texts under 65536 bytes, and numbers and a flag that denote such. |
| Downgrade.V3RoundTrip | downgrade.go:232-283 | Every accepted record is read back by the version 3 reader with its key and value, and its attributes in normal form. |
| Downgrade.NormalMeans | downgrade.go:232-283 | The normal form, attribute by attribute: the texts as they were or empty, the numbers they denote in shortest form or 0, the flag spelled out. |
| Downgrade.NormalIdempotent | downgrade.go:232-283 | A second trip through version 3 changes no more attributes. |
| Downgrade.NormalAccepted | downgrade.go:232-283 | What came back from version 3 can go there again. |
| Downgrade.EncodeV3Record | downgrade.go:232-283 | The encoding loop refuses exactly what cannot be expressed and otherwise gives the specified bytes. |
| Downgrade.WriteV3Scans | downgrade.go:179-211 | A version 3 log written from any acceptable items scans cleanly to exactly their normal forms. |
| Downgrade.LiveIndex | downgrade.go:109-126 | The index built from a scan is the one of last records. |
| Downgrade.DowngradeV3Correct | downgrade.go:179-211 | Possible if and only if every live record is expressible; the result opens as a clean version 3 log with the same keys and values and normal attributes. |
| Downgrade.DowngradeV4Correct | downgrade.go:152-174 | Possible if and only if no live record carries extensions; the result opens as a clean version 4 log with exactly the same contents. |
| Downgrade.WriteV3Log | downgrade.go:179-211 | The loop over the live records writes the specified log, or fails exactly when one record cannot be expressed. |
| Downgrade.WriteV4Log | downgrade.go:152-174 | The same for version 4, through the current writer and a header rewrite; it fails exactly when one record carries extensions. |
| Downgrade.RepairTranslates | downgrade.go:110-136 | The repair of the source does not change what is written. |
| Downgrade.TranslationCorrect | downgrade.go:128-136 | For either target: a translation exists if and only if the log is not corrupt and every live record can be expressed, and it opens with the contents, normal for version 3 and unchanged for version 4. |
| Downgrade.Translate | downgrade.go:108-136 | The scan cuts a torn tail and nothing else off the source, and the log written is that of the source as it was. |
| Downgrade.Downgrade | downgrade.go:92-140 | Succeeds if and only if the target is 3 or 4, the destination may be written, the source has a readable header of version 4 or 5 without features, is not corrupt, and every live record is expressible (3) or without extensions (4); then the destination opens with those contents, and otherwise it is unchanged; the source changes only by repair or creation. |
| Downgrade.DowngradeDatabase | downgrade.go:67-146 | The same for a directory in any state of an interrupted compaction, with a final rename that may fail: the destination changes exactly on success, and the directory afterwards is stated file by file. |
| Downgrade.OnlyRepairedIff | downgrade.go:61-62 | An allowed downgrade changes nothing in the source's directory but a torn tail of the main log if and only if there is a main log, it is not empty, and there is no compaction artifact. |
| Downgrade.CreatesSource | log.go:166-192 | In an empty directory it creates an empty log. |
| Downgrade.MovesBackup | log.go:240-243 | In a directory that holds only a compaction backup it moves that into the main place. |
| Disk.RecoveryPlanKeeps | log.go:194-263 | From every combination of files, every single action of the recovery keeps the file that a fresh recovery would choose, so it can be interrupted anywhere and started again. |
| Disk.RunPlanResult | log.go:194-263 | A completed recovery leaves the chosen file in the main place and no artifact. |
| Disk.RunPlanCleans | log.go:194-263 | The files after a completed recovery, every one of them: the chosen database in the main place, no artifact, the rest untouched. |
| Disk.SurvivorByRank | log.go:220-252 | Which file survives: the main log over all, then the ready file, the backup, and the legacy file. |
| Disk.CleanedKeepsBackups | log.go:57-64 | A migration backup, complete or not, keeps its presence and its bytes through a recovery. |
| Disk.RecoverCompactionArtifacts | log.go:194-263 | The procedure leaves a main log exactly when there was a main log, a ready file, a backup or a legacy file, with the bytes of the first of these that was there; no artifact; and every migration backup as it was. |
| FileMeaning.TornAppend | log.go:444-447 | An append interrupted before its last byte leaves a file that opens, means what it meant, and repairs to the bytes it had. |
| FileMeaning.RepairKeeps | log.go:755-769 | A repair keeps meaning, header and version, and needs no second one. |
| FileMeaning.OpensAs | log.go:332-368 | A file is opened in the version of its header, and is not to be written exactly when that is 5 with a read-only bit. |
| FileMeaning.CompactServes | store.go:690-770 | The compacted form of every file that opens is a clean current log of the same meaning. |
| FileMeaning.PartlyUpgradedIsOldOrNew | log.go:316-326 | After any number of header bytes an upgrade from version 4 has left either the old file or the new one. |
| FileMeaning.UpgradeKeeps | store.go:631-638 | So an upgrade interrupted anywhere leaves a file that opens with the same contents. |
| FileMeaning.InterruptedUpgradeSafeIff | log.go:348-354 | For any bytes in the mask fields: every interruption leaves a plain version 4 or version 5 header if and only if they are zero. |
| Lifecycle.NextInv | store.go:690-842 | Every step of opening, recovering, migrating, appending, compacting, failing or crashing keeps the invariant of the database directory. |
| Lifecycle.EveryRecoveryIsExact | store.go:690-842 | In every run, with crashes anywhere and at most one failure per compaction, whenever an open completes its scan, exactly the acknowledged contents are served, or those plus the one operation in flight. |
| Lifecycle.EveryOpenIsPossible | log.go:732-780 | And no open is refused: in every such run, whenever the scan of an open is about to run, the main log is there and not corrupt, and the scan can complete. |
| Lifecycle.UpMeansAcked | store.go:346-477 | While a store is up in such a run, its log is clean and means what was acknowledged. |
| Durability.AcknowledgedSurvives | store.go:346-477 | From the acknowledgement of a Put or Delete until the next write of its key begins, at every instant of every run, the file a recovery would choose opens and holds what was put, or not the key. |
| Durability.CompactionInstalls | store.go:772-842 | A compaction, or a migration from before version 4, that has only its backup left to drop has put the compacted form of the log it started from in the main place. |
| Durability.CompactionCanComplete | store.go:690-842 | From every store that is up a compaction can go through, and leaves the compacted log and nothing beside it. |
| Durability.AppendCanComplete | log.go:383-453 | And every accepted operation can be acknowledged, with exactly its record added to the log. |
| Durability.CrashIsPossible | log.go:61-64 | The process can stop at every instant. |
| Lifecycle.BackupNeverChanges | store.go:650-687 | A migration backup that is there is the original log, and stays so byte for byte through the rest of the run, whatever fails. |
| Lifecycle.BackupStays | store.go:650-687 | From any state of any run, a migration backup that is there keeps its bytes for the rest of the run, failed rollbacks included. |
| Lifecycle.CurrentImpliesBackup | store.go:618-645 | With backups kept, in every state either the backup of the original is on disk or the database still is the original, up to its torn tail; not even a failed rollback loses the backup. |
| Lifecycle.StepKeepsReadOnly | store.go:350-352 | No single step changes a log that asks not to be written, and none of them can fail a rollback. |
| Lifecycle.ReadOnlyLogUntouched | log.go:755-769 | A log with an unknown read-only feature keeps every byte for the rest of the run, whatever is tried. |
| FailedRollback.FailedRollbackSafeIff | store.go:810-816 | After a failed rollback the database is recoverable if and only if nothing was stored in it. |
| FailedRollback.TwoFailuresLoseData | store.go:810-816 | A run, of a database with one stored value, to a state in which that value is lost, with two failures in one compaction. |
| FailedWrite.LeftoverDroppedIff | log.go:755-771 | What follows a clean log is dropped by the repair if and only if, read by itself, it is a torn record. |
| FailedWrite.RetrySafeIff | log.go:444-447 | After a failed write and a later accepted append, an open finds exactly the acknowledged log if and only if the append covered the left-over bytes or what remains of them, read by itself, is a torn record. |
| FailedWrite.RetryCanRefuse | log.go:444-447 | Over every clean log, two particular appends, the first failing after 32 of 36 bytes, leave a file that cannot be opened. |
| FailedWrite.LostBehindTornTail | store.go:793-809 | No scan of a file with a torn tail, whatever follows it, starts a record directly behind the tail. |
| FailedWrite.AppendBehindIff | store.go:793-809 | When a failed compaction reopens the log and the next append goes to its end, a scan finds the record of that append if and only if there was no torn tail. |
| FailedWrite.LaterAppendsCanBeFound | store.go:793-809 | For every clean log and any two further puts there is a put failing after 29 bytes such that an open finds no trace of the first, a never acknowledged value, and the second. |
| Concurrency.StepInv | store.go:346-546 | Every step of every goroutine keeps the lock, the shared state and what every goroutine knows consistent. |
| Concurrency.MemoStepInv | index.go:89-110 | Every step keeps the memo's invariant: whatever goroutine writes it, a written place holds the right key, and a clean memo is full unless its maker is still filling it. |
| Concurrency.FillInBounds | index.go:104-107 | A goroutine that fills the memo always finds the place it writes, whoever made the array. |
| Concurrency.CacheAlwaysCoherent | store.go:417-421 | In every interleaving, whenever no writer is inside, every cached value is the live value of its key, and log and index agree. |
| Concurrency.LiveFrozen | store.go:395-396 | While any goroutine holds the read lock, no step changes the contents. |
| Concurrency.OnlyWritersChange | store.go:346-477 | The contents change only in a step under the write lock. |
| Concurrency.GetReturnsLive | store.go:390-425 | In every interleaving a Get returns what was live at every instant of its locked interval: the value, or that there is none; never a read error. |
| Visibility.PutChanges | store.go:346-387 | In the step that commits a Put its key gets the value and attributes of the call, and no other item changes. |
| Visibility.DeleteChanges | store.go:446-477 | In the step that commits a Delete its key goes, and no other item changes. |
| Visibility.OnlyCommitsChange | store.go:346-477 | No other step of any goroutine changes an item. |
| Visibility.PutIsSeen | store.go:346-425 | In every interleaving: when a Put has committed, every Get of its key that locks before the next write of the key commits answers that value, and log and index hold it with the attributes. |
| Visibility.DeleteIsSeen | store.go:390-477 | The same of a Delete: the Get finds nothing. |
| Visibility.UnwrittenIsSeen | store.go:390-425 | And without any write the answer is what the store was opened with. |
| Visibility.PutIsScanned | store.go:515-546 | A full scan that reads the key reads that value too. |
| Visibility.DeleteProceedsIff | store.go:446-477 | A Delete goes on to write exactly when its key is live, and its record is then accepted. |
| Visibility.CompactionTakesEffect | store.go:690-842 | A compaction that has replaced log and index has replaced them by exactly the compacted form of the log it found and its index. |
| Scans.NoKeyTwice | store.go:515-546 | In every interleaving a scan delivers keys of its snapshot only, and none twice unless the snapshot repeats it. |
| Scans.DeliveredWasLive | store.go:515-546 | Every pair a scan delivers was live at the instant of its read, which this names: the goroutine had read the record and still held the read lock. |
| Scans.VisitedMeansDelivered | store.go:515-546 | A key of the snapshot that stays live is delivered as soon as the scan has passed it. |
| Scans.ScanIsComplete | store.go:515-546 | A scan that reaches its end has delivered a key that was live throughout if and only if the key is in its snapshot. |
| Scans.SnapshotExactIff | index.go:89-110 | In every interleaving a scan's snapshot is the file order of the index if and only if every place of the memo was written, or is for the empty key, by the time this scan read it. |
| Scans.ScansSafeIff | index.go:90-109 | From every quiet point, every snapshot in every continuation without a writer is the file order if and only if the memo is clean there or no key but the empty one is live. |
| Scans.ScanLeavesClean | index.go:108 | From its snapshot on, a scan leaves the memo clean until the next writer. |
| Scans.QuietSnapshotExact | index.go:89-110 | So it is if nobody was filling the current memo when the scan read the slice. |
| Scans.SoleSnapshotExact | index.go:104-109 | And if a scan that rebuilds the memo sees no other rebuild between its own and its copy. |
| Scans.TimelyScanIsExact | store.go:515-546 | A scan whose reads of the memo were all in time delivers no key twice, and in the end every key that was live throughout. |
| Scans.ScansCollide | index.go:104-109 | From every quiet point with a dirty memo and a live non-empty key there is an interleaving of two scans, without a writer, in which one ends having delivered no key but the empty one, and that one more than once if it is live. |
| Scans.CollidingStore | store.go:264-285 | A freshly opened store with a dirty memo, the empty key and another. |
| Scans.CompactionGoesByFileOrder | store.go:731 | In every interleaving compaction copies by the file order of the index, so the collision never costs data. |

## Left out

- Operating system: file locks, `mmap` and `fsync` are outside the model, except that mapping the file and the sync after a write may fail; a read sees what was written, and power loss that reorders or drops completed writes is not modelled.
- A header torn while a new file is created: creation is one step.
- Lifecycle.EveryRecoveryIsExact: does not cover a run after a failed rollback, because then it is false; FailedRollback.FailedRollbackSafeIff is the exact condition.
- Durability.AcknowledgedSurvives: does not cover a run after a failed rollback, for the same reason.
- Lifecycle.NextInv: a failed append is followed by closing or crashing, because after it the property is false in general; what a store that goes on leaves behind is FailedWrite.RetrySafeIff and FailedWrite.LostBehindTornTail. Reopening the old log after a failed compaction succeeds, and the index in memory is not part of the state.
- Store.Store.Compact: replaces the file as a whole; its renames, one by one and with their failures, are Lifecycle.
- Store.Store.ForEach: states the undisturbed case, and of the callback only where it fails; interleaved goroutines are Scans.
- Store.Store.Get: is stated for logs of version 4 and up, because an opened store is always current.
- Store.OpenStore: takes the migration callback and backup as one decision; option defaults and the checks of path, threshold and field names are left out.
- Store.Migrate: does not fail half way; that is Lifecycle.NextInv.
- Log.AppendLog.MappedRecord: the map is its length; that a mapping shows the bytes of the file is the operating system's promise.
- Index.Index.KeysSortedByOffset: requires distinct offsets, which KeyOrder.IndexOffsetsDistinct proves of every index of a log; for equal offsets the order of the sort is unspecified.
- Cache.LruCache.SetCapacity: requires a capacity that is not negative, because for a negative one the loop never ends (Cache.ShrinkEndsIff).
- Compaction.DeadRatioInRange: the ratio is an exact real; floating-point rounding is not modelled.
- Downgrade.DowngradeDatabase: takes files and not their paths, so source and destination differ; the lock and the temporary file, which is always removed again, are left out.
- Concurrency.StepInv: a step is one access to shared state, in one order for all goroutines. The memo is accessed without exclusion, and Go promises less of such accesses than one order: a slice read while another goroutine replaces it may be torn.
- Aliasing: a value handed out and cached is a value, so the defensive copies of the original have no counterpart.
- Sizes: Go's `int` and `int64` are unbounded here except where a field width is part of the format.
- Background tickers, contexts, `Close`, error texts, statistics, `MemoryUsage`, `Keys`, `Exists`, `CountBy`, `GetMetadata` and `ForEachMetadata`: they would only add easy members.
- The command-line tools and benchmarks; docs/stable-format.md is not part of this model.
