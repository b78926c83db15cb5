# Verified models of FlashDB, cJSON and the asynchronous log ring

This project models the storage and text components of the repository in Dafny and proves what
they are for.

**FlashDB key-value store** (`fdb_kvdb.c`). A log-structured store on flash that can only be
erased by sector. At record level a sector is a store status, a dirty status and a sequence of
records; every flash write is one step, and the object keeps a ghost log of the flash after each
of them. `KvFlash`, `KvSteps`, `KvWrites` and `KvUpdate` are the flash and its writes, `KvCache`,
`KvCoherence`, `KvIndex`, `KvRoom`, `KvGrowth` and `KvLog` the tables and the allocator, `KvGc`,
`KvResume`, `KvGcCrash`, `KvGcRoom`, `KvGcTrace` and `KvGcLoss` the collection, `KvFirm` and
`KvRecovery` what a power loss leaves, `KvTidy` what no power loss has touched, `KvDb`, `KvRun`
and `KvIterate` the object and its runs. Proved: whole runs refine a finite map; a record is
refused only when live records fill the flash; collection always finds room; a power loss at any
write of a run, collections included, leaves the old or the new map on flash, in a form that at
most two boots repair; when a collection was interrupted the map survives if and only if the rest
of its sector finds room; both RAM tables agree with the full scan. At byte level (`Crc`,
`CrcBits`, `ByteWords`, `WriteUnits`, `StatusTable`, `RecordCodec`, `SectorScan`) flash is a
sequence of bytes in which programming can only clear bits; `KvImage` and `SectorLife` say which
bytes stand for a record-level sector. Proved: status tables read back the highest status written,
a record read back is the record written, the checksum is the CRC-32 remainder and sees a damaged
byte, and the traversal of the bytes of a sector, remnants of a power loss included, meets the
records and ends with the free address that the record level says.

**FlashDB time-series log** (`fdb_tsdb.c`; `TsFlash`, `TsPacks`, `TsQuery`, `TsDb`). A ring of
sectors with indexes growing up and data growing down. Proved: after any run of appends iteration
yields the history without exactly the oldest sectors that were overwritten; a range query is the
plain filter exactly when it finds a start.

**cJSON** (`cJSON.c`; `JsonText`, `JsonString`, `JsonParse`, `JsonRoundTrip`, `JsonGrammar`,
`JsonAccepts`, `JsonPrinted`, `JsonSound`, `JsonIndent`, `JsonReader`, `JsonPrint`, `JsonMinify`,
`JsonComments`). The pure printer and the parser's grammar are functions; the parser on its
buffer, the printer into a growing buffer and the in-place minifier are methods proved against
them; `JsonGrammar` is RFC 8259 as a relation between characters and trees. Proved: every text of
RFC 8259 parses to the tree it stands for, nothing but such texts and a named set of departures is
accepted, and printed texts are of the grammar; parsing a printed tree returns that tree exactly
when it is nested at most 1000 deep; the buffered printer writes the pure text and succeeds
exactly when the text and two more bytes fit; minifying removes exactly blanks and comments.

**Asynchronous log ring** (`elog_async.c`, `elog_utils.c`; `LogRing`). Proved: every interleaving
of puts, gets and line-wise reads is a bounded first-in-first-out queue; a line-wise read is the
first line exactly when its newline sign does not touch the end of the buffer.

## Conventions and assumptions

- Flash calls and allocation succeed. `strtod` and `sprintf` are parameters (`CLib`); only their
  behaviour on integer literals and 32-bit integers is fixed.
- Keys do not have exactly 64 bytes: `find_kv_cb` never matches such a name, because `read_kv`
  cuts its last byte (`ScanMatchIff` states this as an if and only if). A record is at most the
  sector payload minus the remain threshold, or does not fit a sector at all; between the two, the
  first record of an empty sector skips the "full" check and the search window would not see what
  follows (`InWindow` is what the threshold gives).
- The key table files names under the upper 16 bits of their CRC-32 (`Crc.NameCrc`). The model
  holds for every hash function; a cached lookup is right exactly when no other live key has the
  hash and saved bytes that begin with the key (`HitIsRight`, `ConfusedHit`).
- A power loss can leave a lone status byte, which no traversal sees, and unfinished records,
  which are searched for magic words from their own start. A flash with such remnants (`torn`) is
  required to be `Firm`: the last record of a sector in use, if a status byte is hidden before it,
  and the live records do not end in a write unit of 0xFF bytes, and unfinished records hold one
  magic word. A caller sees to it by not storing values that end so or contain the word: then a
  power loss spoils it only by cutting a record short in a sector that already hides a status byte
  (`LossStaysFirm`; the space overlapped is blank then, `TornBehindBlank`). `FreeOffsetIff`,
  `LostByte`, `LostByteExample`, `GetNextKvAddr` and `MagicInName` show that the code needs it. At record level `single` stands for the condition
  `KvImage.SingleMagic`. Without remnants nothing of this is asked.
- Recovery needs room. For an interrupted update one sector must take the record in PRE_DELETE
  (`RoomAtBoot`). For an interrupted collection the rest of the sector must fit (`RoomForGc`):
  `KeepsIff` shows when exactly the map is kept, `TakesRestFits` gives a simple sufficient
  condition, and `HalfSector` the failing case, in which a torn copy takes the room and the boot
  erases the only good copy; `LossReached` reaches it by calls of the interface.
- Addresses are pairs of sector and position (key-value) or offset (time series).
- The bit operations of the UTF-8 encoder are written as the arithmetic they amount to on
  unsigned numbers.
- `cJSON_PrintPreallocated` needs two bytes more than the text, one of them for the NUL; a buffer
  that holds the text and its NUL exactly is refused. `PrintPreallocated` states the exact bound.
- A range query whose start lies between the spans of two neighbouring sectors visits nothing,
  although logs follow. `IterByTime` gives the exact condition, `GapIsMissed` the failing family,
  `GapReached` appends that lead there.
- The parser takes more than RFC 8259 allows: any control character as a blank or inside a string
  (`Liberal`), `\u` escapes with invalid digits (as U+0000), and whatever number `strtod` reads
  (`Lax`). `JsonGrammar` names each of them; `TextSound` shows that there are no others.
- `cJSON_Minify` looks for the end of a block comment from its opening star on, so `/*/` is a
  whole comment (`BlockCommentGoes`).
- A one-bit status table distinguishes at most 8 statuses (`ReadsBackIff`, `EighthStatusLost`).
- An empty put into an empty log ring makes the buffer count as full; `Run` asks that it does not
  happen, `Put` says what it does.

## Model

| member | source | states |
|---|---|---|
| `KvRun.Run` | components/FlashDB/src/fdb_kvdb.c:1193-1225 | any sequence of set, delete and get answers as a finite map does at each point, whatever allocations and collections happened in between; a set is refused for want of space only if the flash behind it has nothing to collect, one reserved empty sector and no room in any sector in use, and, if no power loss went before, only if the live records fill every sector but one up to the room of the record or the threshold; a power loss at any write of the run leaves a flash that Recover is proved for, with the map before or behind the operation |
| `KvRun.FreshRun` | components/FlashDB/src/fdb_kvdb.c:1193-1225 | from a formatted flash, for any sequence of operations: a record that a sector can hold is refused only if the bytes of the records in the map sum to at least (sectors - 1) times the payload less the larger of the record and the header plus 64; deleted and replaced records never count |
| `KvRun.PrefixFreeDistinct` | components/FlashDB/src/fdb_kvdb.c:214-237 | names of which none begins with another are never confused by the key table, whatever the hash, so runs on them need nothing of it |
| `KvRun.Do` | components/FlashDB/src/fdb_kvdb.c:1173-1225 | one operation gives the answer the map and the flash determine and changes the map accordingly; every one of its writes leaves a flash that boot is proved for; a flash whose clean sectors hold live records only stays so |
| `KvRun.Recover` | components/FlashDB/src/fdb_kvdb.c:1497-1537 | after power loss at any write of an update or of a collection, given the room stated, the map that was on flash is restored exactly: by one boot if and only if no record is unfinished, otherwise by two, and what is found after the first of two is all but a key whose only copy waits behind the place where it stopped |
| `KvRun.Format` | components/FlashDB/src/fdb_kvdb.c:1497-1537 | booting a flash without any sector header formats every sector and gives a database that is in order, tidy and stands for the empty map |
| `KvDb.ScanMatchIff` | components/FlashDB/src/fdb_kvdb.c:504-519 | the scan finds a live record under its own name if and only if the name is shorter than 64 bytes |
| `KvDb.Kvdb.Open` | components/FlashDB/src/fdb_kvdb.c:1600-1640 | the object before loading: cleared flags, tables as found, nothing written |
| `KvDb.Kvdb.Touch` | components/FlashDB/src/fdb_kvdb.c:310-331 | reading a first record without length marks it ERR_HDR and keeps index, space and recoverable map |
| `KvDb.Kvdb.ReadSectorInfo` | components/FlashDB/src/fdb_kvdb.c:372-448 | the free address that summing the records seen and searching the last run of 0xFF give is the true one, also when the table answers; remain plus used bytes is the payload |
| `KvDb.Kvdb.NextKv` | components/FlashDB/src/fdb_kvdb.c:274-308 | the next record that has a magic word, lone status bytes passed over, or none; also when the sector table answers |
| `KvDb.Kvdb.FindNoCache` | components/FlashDB/src/fdb_kvdb.c:521-528 | the full scan returns the place of the live record of the key, or nothing if there is none |
| `KvDb.Kvdb.AllocUsing` | components/FlashDB/src/fdb_kvdb.c:806-834 | the first sector in use that fits; none only if no sector in use fits |
| `KvDb.Kvdb.AllocEmpty` | components/FlashDB/src/fdb_kvdb.c:835-843 | the first empty sector, none only if there is none or the record exceeds every sector |
| `KvDb.Kvdb.AllocKv` | components/FlashDB/src/fdb_kvdb.c:823-846 | first fit, never the last empty sector outside collection; a collection is requested exactly when one empty sector is left |
| `KvDb.Kvdb.DelKv` | components/FlashDB/src/fdb_kvdb.c:848-901 | the exact flash writes of a deletion, and the handshake that keeps the table entry of a replacement just stored; with `TidyDel` the sector is due for collection |
| `KvDb.Kvdb.PlaceStatus` | components/FlashDB/src/fdb_kvdb.c:742-791 | the sector status writes before a record is programmed, with the early "full" threshold |
| `KvDb.Kvdb.ProgramRecord` | components/FlashDB/src/fdb_kvdb.c:1128-1152 | the sequence of writes that creates a record, unfinished until the last |
| `KvDb.Kvdb.InsertRecord` | components/FlashDB/src/fdb_kvdb.c:1108-1157 | placing and programming a record leaves both tables in agreement with flash |
| `KvDb.Kvdb.CreateKv` | components/FlashDB/src/fdb_kvdb.c:1085-1163 | name too long and record too large are refused without any change; otherwise exactly the planned writes |
| `KvDb.Kvdb.MoveAlloc` | components/FlashDB/src/fdb_kvdb.c:918-936 | the allocation of a move, and in recovery the answer whether the key is live already; a refusal means that no sector fits |
| `KvDb.Kvdb.MoveKv` | components/FlashDB/src/fdb_kvdb.c:906-967 | the exact flash and, for a live record, the exact writes of a move; the key keeps its value at each of them; refused only if no sector fits, and then nothing but reads happened |
| `KvDb.Kvdb.Reclaim` | components/FlashDB/src/fdb_kvdb.c:1030-1031 | erasing a sector without live records loses nothing at any write |
| `KvDb.Kvdb.CollectLive` | components/FlashDB/src/fdb_kvdb.c:1019-1029 | a live record of the sector goes to the sector the allocator chooses, and the rest still fits |
| `KvDb.Kvdb.CollectWaiting` | components/FlashDB/src/fdb_kvdb.c:1019-1029 | a record left in PRE_DELETE by a power loss is copied unless its key is live already, then deleted; the map is kept |
| `KvDb.Kvdb.DoGc` | components/FlashDB/src/fdb_kvdb.c:1010-1035 | collecting one sector keeps the map and leaves the sector empty; the flash is exactly AfterGc and the writes exactly GcWrites |
| `KvDb.Kvdb.GcCollect` | components/FlashDB/src/fdb_kvdb.c:1042-1057 | a collection, fresh or resumed, keeps the map and leaves all sectors clean; with two empty sectors it does nothing; outside recovery its writes are exactly AllGcWrites and each leaves a flash that boot is proved for |
| `KvDb.Kvdb.NewKv` | components/FlashDB/src/fdb_kvdb.c:969-989 | allocation with one collection and retry; with a place nothing is written; a refusal means that nothing is left to collect and no sector has room; a tidy flash stays tidy |
| `KvDb.Kvdb.FindKv` | components/FlashDB/src/fdb_kvdb.c:530-552 | the cached lookup equals the scan |
| `KvDb.Kvdb.GetKv` | components/FlashDB/src/fdb_kvdb.c:567-589 | the leading bytes of the stored value, as many as the buffer takes, and its full length |
| `KvDb.Kvdb.DelKey` | components/FlashDB/src/fdb_kvdb.c:1173-1190 | removes exactly the key with exactly one deletion, or reports a name error without change; each write leaves a flash that boot is proved for, with the old or the new map; a tidy flash stays tidy |
| `KvDb.Kvdb.Replace` | components/FlashDB/src/fdb_kvdb.c:1205-1217 | the writes of the update phase: each leaves the old or the new map on flash, outside an unfinished collection in a form that boot is proved for, and no record of another key changes |
| `KvDb.Kvdb.FindAndReplace` | components/FlashDB/src/fdb_kvdb.c:1200-1217 | with a place for the record, the old record is looked for and replaced: exact flash, index and collection request, and what each write leaves |
| `KvDb.Kvdb.SetKv` | components/FlashDB/src/fdb_kvdb.c:1193-1225 | the map changes at the key only or not at all; the error cases; every write, collections included, leaves the old or the new map on flash in a form that boot is proved for; the exact flash when no collection is needed and the writes of the collection when one is; on a tidy flash a record is refused only if the live records sum to the stated number of bytes |
| `KvDb.Kvdb.BootRecord` | components/FlashDB/src/fdb_kvdb.c:1464-1490 | finishes a record in PRE_DELETE, rejects one in PRE_WRITE and stops there, caches a live one; the map is kept |
| `KvDb.Kvdb.ScanRecords` | components/FlashDB/src/fdb_kvdb.c:1522-1528 | the scan of all records keeps the map; it either completes or has dealt with the first unfinished record |
| `KvDb.Kvdb.CheckHeaders` | components/FlashDB/src/fdb_kvdb.c:1432-1448 | exactly the sectors without header are formatted, and no record changes |
| `KvDb.Kvdb.SetDefault` | components/FlashDB/src/fdb_kvdb.c:1280-1295 | all sectors are formatted |
| `KvDb.Kvdb.ResumeGc` | components/FlashDB/src/fdb_kvdb.c:1450-1462 | a sector found in GC makes the boot finish the collection, and the map is kept; with two empty sectors it is put off |
| `KvDb.Kvdb.Load` | components/FlashDB/src/fdb_kvdb.c:1497-1537 | one boot keeps the map; it either restores the state between operations or has dealt with the first unfinished record, says what still waits behind it, and finds what it needs the next time |
| `KvGc.SourceBounds` | components/FlashDB/src/fdb_kvdb.c:742-770 | what has been scanned of a sector plus the next record stays below the payload |
| `KvGc.RoomForNext` | components/FlashDB/src/fdb_kvdb.c:1010-1035 | the sector that was empty when collection began has room for the next record, despite first fit and the full threshold |
| `KvGc.MoveRecord` | components/FlashDB/src/fdb_kvdb.c:906-967 | moving a record keeps the account that a fresh sector received no more than the scanned prefix of the source |
| `KvGc.StartCollecting` | components/FlashDB/src/fdb_kvdb.c:1015-1018 | marking a dirty sector GC keeps map and tables and starts that account |
| `KvGc.ReclaimFacts` | components/FlashDB/src/fdb_kvdb.c:714-740 | erase and header write of a sector without live records keep map, space and tables |
| `KvResume.ReserveFits` | components/FlashDB/src/fdb_kvdb.c:1010-1035 | with an empty sector in reserve every record of a sector finds a place in its turn |
| `KvResume.ResumableIf` | components/FlashDB/src/fdb_kvdb.c:1450-1462 | a flash left by a power loss in collection meets what the boot relies on whenever the rest of the sector fits or two sectors are empty |
| `KvGcCrash.MarkInterrupted` | components/FlashDB/src/fdb_kvdb.c:1015-1018 | a power loss after the GC mark leaves a flash that the boot is proved for |
| `KvGcCrash.MoveInterrupted` | components/FlashDB/src/fdb_kvdb.c:906-967 | every single write of a move during collection leaves such a flash, with the same map |
| `KvGcCrash.ReclaimInterrupted` | components/FlashDB/src/fdb_kvdb.c:714-740 | after the erase or the header write of the emptied sector the header check restores a flash as between operations |
| `KvGcTrace.AllGcCrashes` | components/FlashDB/src/fdb_kvdb.c:1042-1057 | a power loss at any write of a whole collection leaves a flash that boot is proved for, with the same map |
| `KvGcTrace.LiveTurn` | components/FlashDB/src/fdb_kvdb.c:1019-1029 | a turn of the loop that finds a place is the move of the record there, write by write |
| `KvGcRoom.KeepsIff` | components/FlashDB/src/fdb_kvdb.c:1010-1035 | resuming the collection of a sector keeps the map if and only if each record to be moved finds a place in its turn, on the flash with all sectors read; a waiting record whose copy was finished needs none; otherwise a key is erased with the sector |
| `KvGcRoom.AlikeCollected` | components/FlashDB/src/fdb_kvdb.c:906-967 | whether a waiting record with a finished copy is deleted or left behind makes no difference to the rest of the collection |
| `KvGcRoom.LeftBehindStays` | components/FlashDB/src/fdb_kvdb.c:1010-1035 | a key whose record found no place has no copy outside the sector about to be erased, whatever the later turns do |
| `KvGcRoom.TakesRestFits` | components/FlashDB/src/fdb_kvdb.c:742-846 | one clean sector with room for the rest of the sector is enough for all of it to fit |
| `KvGcLoss.HalfSector` | components/FlashDB/src/fdb_kvdb.c:1010-1035 | with a torn copy in the only other sector the map is kept if and only if twice the record is shorter than the sector payload; longer records are lost at the next boot |
| `KvGcLoss.TornMoveWritten` | components/FlashDB/src/fdb_kvdb.c:906-967 | that flash is one of the writes of the collection |
| `KvGcLoss.LossReached` | components/FlashDB/src/fdb_kvdb.c:1193-1225 | two sets, a deletion and a set that collects, from a formatted database, reach it |
| `KvUpdate.UpdateSteps` | components/FlashDB/src/fdb_kvdb.c:1205-1217 | replacing a key keeps index and space invariants, changes the map only there, and each write leaves the old or the new map recoverable |
| `KvUpdate.UpdateInterrupted` | components/FlashDB/src/fdb_kvdb.c:1205-1217 | every write of the update phase leaves a flash that recovery is proved for |
| `KvUpdate.UpdateUntouched` | components/FlashDB/src/fdb_kvdb.c:848-901 | no write changes a record other than the one being replaced |
| `KvUpdate.RecoverableMeans` | components/FlashDB/src/fdb_kvdb.c:1464-1490 | a recoverable flash holds a finished copy of every key in WRITE or PRE_DELETE, never two in WRITE, and no WRITE copy of anything else |
| `KvTidy.TidyDel` | components/FlashDB/src/fdb_kvdb.c:848-901 | a deletion or preparation leaves no clean sector with a record that is not live |
| `KvTidy.TidyCreate` | components/FlashDB/src/fdb_kvdb.c:742-791 | a sector becomes full only when less than the threshold is left |
| `KvTidy.TidyGc` | components/FlashDB/src/fdb_kvdb.c:1010-1035 | a collection of a sector keeps both |
| `KvTidy.SumIsBytes` | components/FlashDB/src/fdb_kvdb.c:372-448 | where all records are live the bytes in use are the bytes of the map |
| `KvTidy.RefusedBytes` | components/FlashDB/src/fdb_kvdb.c:969-989 | a tidy flash that refuses a record is filled with live records, every sector but the reserved one, up to the room of the record or the threshold |
| `KvSteps.PrepareDelete` | components/FlashDB/src/fdb_kvdb.c:870-873 | marking PRE_DELETE keeps the recoverable map |
| `KvSteps.FinishDelete` | components/FlashDB/src/fdb_kvdb.c:874-891 | marking DELETED ends the pending replacement |
| `KvSteps.DirectDelete` | components/FlashDB/src/fdb_kvdb.c:874-891 | deleting a live record removes exactly its key |
| `KvSteps.AddRecMid` | components/FlashDB/src/fdb_kvdb.c:700-712 | a record not yet finished does not change what is recoverable |
| `KvSteps.AddRecSpace` | components/FlashDB/src/fdb_kvdb.c:742-770 | a record that fits keeps every sector within its payload and every record start before the threshold |
| `KvRecovery.RejectSteps` | components/FlashDB/src/fdb_kvdb.c:1478-1483 | marking an unfinished record ERR_HDR keeps map, space and tables |
| `KvFirm.FreeOffsetIff` | components/FlashDB/src/fdb_kvdb.c:412-439 | the free offset found is the true one if and only if no lone status byte is hidden or the last record does not end in a blank write unit |
| `KvFirm.FindFree` | components/FlashDB/src/fdb_kvdb.c:412-439 | the summing loop and the search for the last run of 0xFF give that offset |
| `KvFirm.LossStaysFirm` | components/FlashDB/src/fdb_kvdb.c:1205-1217 | on flash with or without remnants, with values that do not end in a blank unit and hold no second magic word, a write of an update or move leaves flash that traversals see as it is, if and only if it did not cut a record short behind a lone status byte |
| `KvFirm.TornBehindBlank` | components/FlashDB/src/fdb_kvdb.c:412-439 | in that case the free offset is found too low by blank units of the record cut short only |
| `KvFirm.FirmBeforeLoss` | components/FlashDB/src/fdb_kvdb.c:1205-1217 | flash without remnants whose live records do not end in a blank unit meets the condition, so that the first power loss is covered |
| `KvFirm.NothingBehind` | components/FlashDB/src/fdb_kvdb.c:1128-1152 | in a sector that hides no status byte no power loss spoils it |
| `KvFirm.LostByte` | components/FlashDB/src/fdb_kvdb.c:412-439 | a record behind a lone status byte: the true free offset is found if and only if the record does not end in a blank unit; otherwise it is one unit short |
| `KvFirm.LostByteExample` | components/FlashDB/src/fdb_kvdb.c:412-439 | a sector in order whose free offset is found one byte too low |
| `KvCache.StoreKv` | components/FlashDB/src/fdb_kvdb.c:170-209 | the key is cached, at most one slot changes its key, a key is evicted only from a full table and then a least active one |
| `KvCache.DropKv` | components/FlashDB/src/fdb_kvdb.c:170-209 | the entry of the hash is gone, all others stay |
| `KvCache.LookupKv` | components/FlashDB/src/fdb_kvdb.c:214-237 | a hit is a slot with the hash whose saved bytes begin with the name; no slot qualifies otherwise |
| `KvCache.StoreSector` | components/FlashDB/src/fdb_kvdb.c:124-149 | one slot per sector, holding the stored offset or nothing; the offset is stored whenever the sector has a slot or one is free |
| `KvCache.LookupSector` | components/FlashDB/src/fdb_kvdb.c:154-165 | the offset stored for the sector, or no slot for it |
| `KvCoherence.HitIsRight` | components/FlashDB/src/fdb_kvdb.c:530-552 | a hit of the key table is the live record of the key, unless another live key has the hash and saved bytes that begin with it |
| `KvCoherence.ConfusedHit` | components/FlashDB/src/fdb_kvdb.c:214-237 | the condition is exact: such another key, once cached, is returned instead |
| `KvCoherence.StoreKvOk` | components/FlashDB/src/fdb_kvdb.c:170-209 | storing the place of a live key repairs the table for its hash |
| `KvCoherence.SectorRepaired` | components/FlashDB/src/fdb_kvdb.c:1136-1142 | storing the true first free offset repairs the sector table |
| `KvRoom.ChosenLeavesEmpty` | components/FlashDB/src/fdb_kvdb.c:823-846 | allocation outside collection leaves an empty sector |
| `KvIterate.KvIterator.Next` | components/FlashDB/src/fdb_kvdb.c:1697-1731 | advances to the next live record with the counters, or reports that none is left |
| `KvIterate.IterateAll` | components/FlashDB/src/fdb_kvdb.c:1697-1731 | iterating to the end names every live key exactly once, with correct byte totals |
| `Crc.TableSamples` | components/FlashDB/src/fdb_utils.c:21-66 | entries at both ends and in the middle of the table follow from the rule by which the model computes it |
| `Crc.CalcCrc32` | components/FlashDB/src/fdb_utils.c:77-89 | the accumulator loop computes CRC-32 |
| `Crc.Composition` | components/FlashDB/src/fdb_utils.c:77-89 | feeding bytes in pieces gives the checksum of the whole |
| `CrcBits.Crc32IsBits` | components/FlashDB/src/fdb_utils.c:77-89 | the table-driven checksum is the bitwise remainder by 0xEDB88320 over the bits of the message, lowest bit first |
| `CrcBits.CheckValue` | components/FlashDB/src/fdb_utils.c:77-89 | the checksum of the digits 1 to 9 is 0xCBF43926 |
| `CrcBits.OneByte` | components/FlashDB/src/fdb_utils.c:77-89 | messages of which one byte differs have different checksums |
| `StatusTable.SetStatus` | components/FlashDB/src/fdb_utils.c:91-113 | the table to program and the one byte that matters |
| `StatusTable.MarksAreShifts` | components/FlashDB/src/fdb_utils.c:91-113 | the constants are 0x80 and 0xFF shifted to the right |
| `StatusTable.GetStatus` | components/FlashDB/src/fdb_utils.c:115-134 | the highest status whose mark is programmed |
| `StatusTable.WriteStatus` | components/FlashDB/src/fdb_utils.c:136-160 | programming one unit of the table on flash that only clears bits |
| `StatusTable.ReadsBackMax` | components/FlashDB/src/fdb_utils.c:91-169 | after an erase any sequence of status writes reads back as the highest one, at 8 and 32 bits for any count, at 1 bit up to 8 |
| `StatusTable.ReadsBackIff` | components/FlashDB/src/fdb_utils.c:91-169 | a status table reads back the highest of any sequence of writes if and only if it is of units, or of bits with at most 8 statuses |
| `StatusTable.EighthStatusLost` | components/FlashDB/src/fdb_utils.c:91-134 | in every one-bit table with more than 8 statuses, status 8 leaves no mark |
| `StatusTable.StatusAfterWrite` | components/FlashDB/src/fdb_utils.c:136-160 | a status write raises the status read to the one written if that is higher, whatever the table held |
| `StatusTable.TornBitUpdate` | components/FlashDB/src/fdb_utils.c:91-134 | a partly programmed one-bit update reads as a status between old and new |
| `RecordCodec.FlashWrite` | components/FlashDB/src/fdb_utils.c:284-305 | data programmed on erased flash is stored, nothing else changes |
| `RecordCodec.AlignWrite` | components/FlashDB/src/fdb_kvdb.c:1059-1083 | the data filled up with 0xFF to the write granularity |
| `RecordCodec.WriteKvHdr` | components/FlashDB/src/fdb_kvdb.c:700-712 | status PRE_WRITE, then the header bytes, nothing else; and the flash between the two writes |
| `RecordCodec.RecordCrc` | components/FlashDB/src/fdb_kvdb.c:1115-1127 | the piecewise checksum is the checksum of the whole checked region |
| `RecordCodec.CreateKv` | components/FlashDB/src/fdb_kvdb.c:1085-1152 | the record of key and value stands in the erased space with status WRITE, the gap of its header stays erased, nothing else changes; and what stands there after each of the five writes |
| `RecordCodec.ChunkedCrc` | components/FlashDB/src/fdb_kvdb.c:337-349 | the 32-byte chunk loop computes the checksum of the whole region |
| `RecordCodec.ReadKv` | components/FlashDB/src/fdb_kvdb.c:310-370 | status, length, checksum verdict, name and value range as stored; a wrong length is an ERR_HDR record |
| `RecordCodec.RoundTrip` | components/FlashDB/src/fdb_kvdb.c:1085-1163 | what is created is read back live, with correct checksum and the same value; the name is whole if and only if shorter than 64 bytes |
| `RecordCodec.DamageSeen` | components/FlashDB/src/fdb_kvdb.c:337-353 | a created record of which one checked byte was changed to anything else is read with a failed checksum |
| `RecordCodec.KnownTable` | components/FlashDB/src/fdb_utils.c:93-113 | the status table of a finished record byte for byte, at every write granularity |
| `RecordCodec.KnownRecord` | components/FlashDB/src/fdb_kvdb.c:1085-1152 | the bytes of a small record at every write granularity: status table, "KV00", length, checksum, name length, value length, name, value, with their padding |
| `RecordCodec.NumberBytes` | components/FlashDB/src/fdb_kvdb.c:1115-1127 | numbers are stored with the lowest byte first |
| `RecordCodec.WordBytes` | components/FlashDB/src/fdb_kvdb.c:37-44 | the checksum word is stored with the lowest byte first, as the magic word is |
| `SectorScan.FindNextKvAddr` | components/FlashDB/src/fdb_kvdb.c:243-272 | the windows of 32 bytes, 28 apart, miss no magic word between start and the one found |
| `SectorScan.ContinueFfAddr` | components/FlashDB/src/fdb_utils.c:174-199 | the aligned start of the last run of 0xFF, or the end |
| `KvImage.InWindow` | components/FlashDB/src/fdb_kvdb.c:243-272 | in a sector that is in order every record starts where the search window can still see it |
| `KvImage.GetNextKvAddr` | components/FlashDB/src/fdb_kvdb.c:274-308 | behind a record the next one with a magic word is found, or nothing, if and only if the bytes searched of the record itself hold no other magic word |
| `KvImage.MagicInName` | components/FlashDB/src/fdb_kvdb.c:285-300 | an unfinished record whose name holds the magic word is one that the search gets wrong |
| `KvImage.ReadRecord` | components/FlashDB/src/fdb_kvdb.c:310-370 | reading the bytes of a record gives its length, and a failed checksum only for what a power loss left unfinished |
| `KvImage.ReadSectorInfo` | components/FlashDB/src/fdb_kvdb.c:372-448 | on the bytes of a sector, unfinished records and lone status bytes included, the traversal meets exactly the records with a magic word, and the free address is the one of the record level |
| `SectorLife.SectorRun` | components/FlashDB/src/fdb_kvdb.c:372-448 | after any sequence of creations, each taken by the allocator's own test, and status changes on an erased sector the bytes are the image of the record-level sector, and a traversal finds exactly its records and the true free address |
| `SectorLife.CreateKeeps` | components/FlashDB/src/fdb_kvdb.c:742-846 | the allocator's test and the full threshold keep the sector in order: every record starts with the threshold left |
| `SectorLife.ProgramIn` | components/FlashDB/src/fdb_kvdb.c:1108-1152 | after each write of a creation in any sector with room the bytes are the image of the sector with the record at that stage: status byte, header, name, value, live |
| `SectorLife.StageImage` | components/FlashDB/src/fdb_kvdb.c:1128-1152 | the bytes after a write are the image of the unfinished record of the record level |
| `SectorLife.CreateIn` | components/FlashDB/src/fdb_kvdb.c:1108-1152 | creating a record at the free address takes the image of a sector to the image of the sector with the record |
| `SectorLife.MarkIn` | components/FlashDB/src/fdb_kvdb.c:870-875 | a status write takes the image of a sector to the image of the sector with that status |
| `SectorLife.ImageAppend` | components/FlashDB/src/fdb_kvdb.c:1108-1152 | a record programmed at the free address leaves the image of all others as it is |
| `SectorLife.ImageMark` | components/FlashDB/src/fdb_kvdb.c:870-875 | a status change leaves the image of all other records as it is |
| `TsFlash.NoOverlap` | components/FlashDB/src/fdb_tsdb.c:265-284 | index area and data areas never overlap |
| `TsFlash.RingAppend` | components/FlashDB/src/fdb_tsdb.c:265-284 | a log written to the current sector comes last in ring order |
| `TsFlash.RingDrop` | components/FlashDB/src/fdb_tsdb.c:319-329 | formatting the oldest sector drops exactly its logs |
| `TsFlash.RingAdvance` | components/FlashDB/src/fdb_tsdb.c:309-329 | the sector behind a full one is empty, or it is the oldest |
| `TsFlash.IdxMiddle` | components/FlashDB/src/fdb_tsdb.c:500-508 | the aligned midpoint of the binary search is the middle index entry, for every entry size |
| `TsPacks.CountAll` | components/FlashDB/src/fdb_tsdb.c:286-345 | the history, cut where a log did not fit the sector in use, is all there |
| `TsPacks.DroppedBounds` | components/FlashDB/src/fdb_tsdb.c:309-329 | nothing is dropped until the ring wraps, and never the newest log |
| `TsPacks.RingFull` | components/FlashDB/src/fdb_tsdb.c:286-345 | a ring that has dropped logs is full but for one sector and, in each other sector, less than the largest log |
| `TsDb.Tsdb.constructor` | components/FlashDB/src/fdb_tsdb.c:638-651 | a formatted log is in order and empty |
| `TsDb.Tsdb.CloseSector` | components/FlashDB/src/fdb_tsdb.c:291-308 | a full sector gets its end time and last index |
| `TsDb.Tsdb.NextSector` | components/FlashDB/src/fdb_tsdb.c:309-329 | the ring goes on to an empty sector; the oldest sector's logs go exactly when the next sector is not empty |
| `TsDb.Tsdb.UpdateSecStatus` | components/FlashDB/src/fdb_tsdb.c:286-345 | a sector in use with room for the log, the exact condition under which the oldest sector is dropped, and the exact condition for a full log |
| `TsDb.Tsdb.Append` | components/FlashDB/src/fdb_tsdb.c:347-381 | the history grows by the log; the oldest sector is dropped exactly when the log needs another sector and the next one holds logs; time never goes back; the exact condition under which the log is refused as full; failures change no log |
| `TsDb.Tsdb.WriteTsl` | components/FlashDB/src/fdb_tsdb.c:265-284 | the log is written behind the others of the sector, and the packs extend with the history |
| `TsDb.Tsdb.ReadTsl` | components/FlashDB/src/fdb_tsdb.c:109-126 | the log at an index offset |
| `TsDb.Tsdb.Iter` | components/FlashDB/src/fdb_tsdb.c:414-452 | the stored logs in append order: a suffix of the history, sorted by time |
| `TsDb.Tsdb.BinarySearch` | components/FlashDB/src/fdb_tsdb.c:496-509 | ends at the first log of the sector not before `from` |
| `TsDb.Tsdb.IterByTime` | components/FlashDB/src/fdb_tsdb.c:463-527 | exactly the filtered logs in order when `from` is not after the oldest stored log or some sector holds a log not after and a log not before it, nothing otherwise |
| `TsDb.Tsdb.VisitRange` | components/FlashDB/src/fdb_tsdb.c:463-527 | the loops of the query: the filtered logs if it finds its start, nothing otherwise |
| `TsDb.Tsdb.QueryCount` | components/FlashDB/src/fdb_tsdb.c:529-563 | the count of the filtered logs under the same condition, otherwise 0 |
| `TsDb.AppendRun` | components/FlashDB/src/fdb_tsdb.c:347-452 | after any run of appends the history is the accepted entries, and iteration yields it without exactly the packs that a pure function of the history says are overwritten: all of it until the ring wraps, always the newest log, and never less than fills every sector but one up to the size of the largest entry |
| `TsDb.AllAccepted` | components/FlashDB/src/fdb_tsdb.c:347-357 | entries whose times never go back, equal times included, are all accepted |
| `TsDb.GapReached` | components/FlashDB/src/fdb_tsdb.c:463-527 | appends that reach a query which misses its logs: two logs that do not fit one sector and a start between their times |
| `TsQuery.GapIsMissed` | components/FlashDB/src/fdb_tsdb.c:481-495 | whenever `from` falls between the spans of neighbouring sectors no start is found though logs follow |
| `TsQuery.ReachedIff` | components/FlashDB/src/fdb_tsdb.c:481-495 | a query finds its start if and only if `from` is not after the oldest stored log or lies in the span of some sector |
| `TsQuery.EarlierThanHit` | components/FlashDB/src/fdb_tsdb.c:481-495 | everything before the sector where the query starts is too early |
| `TsQuery.FilterPast` | components/FlashDB/src/fdb_tsdb.c:510-521 | behind the first log past `to` nothing belongs to the range |
| `LogRing.CopyLine` | components/ezlog/src/elog_utils.c:67-81 | up to and with the first newline sign, or everything |
| `LogRing.FirstLineIff` | components/ezlog/src/elog_async.c:172-212 | a line-wise read takes exactly the first line if and only if its newline sign does not touch the end of the buffer with more behind it |
| `LogRing.MergedLines` | components/ezlog/src/elog_async.c:190-200 | two lines that come out as one |
| `LogRing.QueuePut` | components/ezlog/src/elog_async.c:130-160 | bytes written behind the queue extend it, across the end of the buffer |
| `LogRing.QueueGet` | components/ezlog/src/elog_async.c:222-254 | reading from the front leaves the rest, across the end of the buffer |
| `LogRing.Ring.Put` | components/ezlog/src/elog_async.c:130-160 | accepts exactly the leading bytes there is room for; an empty put into an empty ring, and only that, makes the whole buffer count as used |
| `LogRing.Ring.Get` | components/ezlog/src/elog_async.c:222-254 | hands out exactly the oldest bytes asked for, as far as there are any |
| `LogRing.Ring.GetLine` | components/ezlog/src/elog_async.c:172-212 | exactly the bytes that the two copies take, the rest stays queued |
| `LogRing.Run` | components/ezlog/src/elog_async.c:99-254 | every interleaving of puts, gets and line-wise reads: each answer is that of a bounded queue at that point, accepted bytes are the granted parts of the puts in order, and they are what was read followed by what is left |
| `JsonText.IntegersOk` | components/cJSON/src/cJSON.c:483-593 | every 32-bit integer survives printing and parsing, with its saturated value |
| `JsonText.OtherNumbers` | components/cJSON/src/cJSON.c:483-593 | a number that is not a 32-bit integer is printed by the C library |
| `JsonString.Utf8RoundTrip` | components/cJSON/src/cJSON.c:696-745 | a strict UTF-8 reader gets every scalar value back from its encoding |
| `JsonAccepts.Utf8Samples` | components/cJSON/src/cJSON.c:696-745 | the encodings that section 7 of RFC 3629 lists |
| `JsonString.LiteralDecodes` | components/cJSON/src/cJSON.c:754-880 | a well-formed literal decodes to the UTF-8 bytes it denotes, surrogate pairs included, ending behind the closing quote |
| `JsonString.QuotedRoundTrip` | components/cJSON/src/cJSON.c:883-1002 | parsing an escaped string returns the string, for every byte string |
| `JsonString.SizeEnough` | components/cJSON/src/cJSON.c:767-798 | the size of the first scan is enough for the decoded bytes |
| `JsonString.PieceStep` | components/cJSON/src/cJSON.c:767-855 | both scans step over exactly one piece of a literal |
| `JsonRoundTrip.RoundTrip` | components/cJSON/src/cJSON.c:1056-1133 | parsing a printed tree, formatted or not, returns the tree and the end of the text if it is nested at most 1000 deep, and fails otherwise |
| `JsonRoundTrip.ValueBack` | components/cJSON/src/cJSON.c:1268-1320 | a printed value in front of any rest parses back, at any depth within the limit and not beyond |
| `JsonRoundTrip.ItemsBack` | components/cJSON/src/cJSON.c:1397-1488 | the same for the elements of an array |
| `JsonRoundTrip.MembersBack` | components/cJSON/src/cJSON.c:1553-1659 | the same for the members of an object |
| `JsonAccepts.TextAccepted` | components/cJSON/src/cJSON.c:1056-1133 | a value of RFC 8259, with the grammar written over characters, behind blanks and with anything behind it parses to exactly the tree it stands for if that is nested at most 1000 deep, and fails otherwise; with the end required it parses if blanks follow and fails if anything printable does; a byte order mark only shifts positions; control characters as blanks and in strings are taken too |
| `JsonAccepts.NestLimit` | components/cJSON/src/cJSON.c:1397-1408 | arrays and objects inside each other, in any order, are read if and only if there are at most 1000 |
| `JsonAccepts.ValueAccepted` | components/cJSON/src/cJSON.c:1268-1320 | the same for a value in front of anything that may follow it: `null`, `true`, `false`, numbers, strings, arrays and objects |
| `JsonAccepts.StringAccepted` | components/cJSON/src/cJSON.c:754-880 | every string of section 7 of RFC 8259 parses to what it denotes: all eight short escapes, hexadecimal digits of both cases, surrogate pairs |
| `JsonPrinted.TextPrinted` | components/cJSON/src/cJSON.c:1143-1216 | a printed tree, formatted or not, is a text of RFC 8259 that stands for the tree, as far as the C library prints numbers of section 6 |
| `JsonPrinted.QuotedString` | components/cJSON/src/cJSON.c:883-1002 | an escaped string is a string of section 7 that denotes the string, for every byte string |
| `JsonPrinted.IntegerIsRfc` | components/cJSON/src/cJSON.c:483-593 | integers are printed as numbers of section 6, without leading zeros |
| `JsonSound.TextSound` | components/cJSON/src/cJSON.c:1056-1133 | whatever C string is accepted is, behind a byte order mark, a text of the grammar with the departures named there, and stands for the tree returned, nested at most 1000 deep |
| `JsonSound.ValueSound` | components/cJSON/src/cJSON.c:1268-1320 | the same for a value |
| `JsonSound.StringSound` | components/cJSON/src/cJSON.c:754-880 | the same for a string; the closing quote is the first that no backslash takes |
| `JsonIndent.TextIndented` | components/cJSON/src/cJSON.c:1662-1773 | every line of a formatted text begins with one tab for each array and object open there, a line with a closing brace with one less; lines end behind the opening brace of every object and behind every member, and nowhere else |
| `JsonReader.ParseHex4` | components/cJSON/src/cJSON.c:596-629 | four hexadecimal digits as a number, 0 if one is invalid |
| `JsonReader.Utf16ToUtf8` | components/cJSON/src/cJSON.c:633-751 | one or two UTF-16 escapes become the UTF-8 bytes of their code point; exactly the invalid ones fail |
| `JsonReader.EncodeUtf8` | components/cJSON/src/cJSON.c:696-745 | the byte loop from the last to the first writes the UTF-8 encoding |
| `JsonReader.ParseBuffer.ScanString` | components/cJSON/src/cJSON.c:767-797 | finds the closing quote exactly when there is one, with the count of skipped bytes |
| `JsonReader.ParseBuffer.DecodeString` | components/cJSON/src/cJSON.c:800-858 | decodes exactly the decodable literals and never writes beyond the computed size, even when it fails later |
| `JsonReader.ParseBuffer.ReadString` | components/cJSON/src/cJSON.c:754-880 | `parse_string` is the grammar's string |
| `JsonReader.ParseBuffer.SkipWhitespace` | components/cJSON/src/cJSON.c:1019-1037 | skips blanks without leaving the last byte |
| `JsonReader.ParseBuffer.ReadNumber` | components/cJSON/src/cJSON.c:275-349 | at most 63 number bytes go to `strtod`; the saturated integer is kept |
| `JsonReader.ParseBuffer.ReadValue` | components/cJSON/src/cJSON.c:1268-1320 | succeeds exactly on the grammar, with its value, offset and depth |
| `JsonReader.ParseBuffer.ReadArray` | components/cJSON/src/cJSON.c:1397-1488 | the loop over elements builds the chain of the grammar in order |
| `JsonReader.ParseBuffer.ReadObject` | components/cJSON/src/cJSON.c:1553-1659 | the loop over members builds the chain of the grammar in order |
| `JsonReader.ParseWithOpts` | components/cJSON/src/cJSON.c:1056-1133 | byte order mark, blanks, value and the optional end check, as the grammar says |
| `JsonReader.PrintThenParse` | components/cJSON/src/cJSON.c:1143-1216 | the buffered printer followed by the parser returns the tree up to the nesting limit |
| `JsonPrint.PrintBuffer.Ensure` | components/cJSON/src/cJSON.c:382-467 | succeeds exactly when the bytes fit the limit; what was printed survives growth |
| `JsonPrint.PrintBuffer.UpdateOffset` | components/cJSON/src/cJSON.c:470-480 | the offset lands on the end of the text just printed |
| `JsonPrint.PrintBuffer.CountEscapes` | components/cJSON/src/cJSON.c:910-934 | the counting pass gives the length of the escaped string |
| `JsonPrint.PrintBuffer.PrintStringPtr` | components/cJSON/src/cJSON.c:883-1002 | fast and general path write the same quoted text, with the closing quote right behind the last byte |
| `JsonPrint.PrintBuffer.PrintNumber` | components/cJSON/src/cJSON.c:483-593 | the number text, unless it is longer than 25 bytes |
| `JsonPrint.PrintBuffer.PrintValue` | components/cJSON/src/cJSON.c:1323-1394 | the text of the pure printer behind what was there; succeeds exactly when text and two bytes fit |
| `JsonPrint.PrintBuffer.PrintArray` | components/cJSON/src/cJSON.c:1491-1550 | the same for arrays |
| `JsonPrint.PrintBuffer.PrintObject` | components/cJSON/src/cJSON.c:1662-1773 | the same for objects |
| `JsonPrint.PrintBuffered` | components/cJSON/src/cJSON.c:1218-1246 | the text does not depend on the starting size; it fails exactly for a negative size or a text beyond the limit |
| `JsonPrint.PrintToString` | components/cJSON/src/cJSON.c:1143-1216 | an array of exactly the text and its NUL |
| `JsonPrint.PrintPreallocated` | components/cJSON/src/cJSON.c:1248-1265 | true exactly when the buffer has two bytes more than the text; then the NUL-terminated text lies in it, and nothing behind `len` is ever touched |
| `JsonPrint.NulFreePrint` | components/cJSON/src/cJSON.c:470-480 | a printed text holds no NUL |
| `JsonMinify.MinifyInPlace` | components/cJSON/src/cJSON.c:2685-2753 | the text in place is minified, the write position never passes the read position, bytes behind the NUL stay |
| `JsonMinify.MinifyErasesFormatting` | components/cJSON/src/cJSON.c:2685-2753 | minifying the formatted text gives the unformatted text, minifying that changes nothing, and the result parses to the same tree |
| `JsonMinify.ValueMinified` | components/cJSON/src/cJSON.c:2694-2752 | the same for a value in front of any rest |
| `JsonMinify.StringStays` | components/cJSON/src/cJSON.c:2730-2743 | string literals are copied whole, escaped quotes included |
| `JsonComments.ByteStep` | components/cJSON/src/cJSON.c:2694-2752 | exactly the four blanks go; every other byte that opens neither comment nor string stays |
| `JsonComments.LineCommentGoes` | components/cJSON/src/cJSON.c:2713-2720 | a line comment goes, and what follows its newline is minified as if it stood alone |
| `JsonComments.LastCommentGoes` | components/cJSON/src/cJSON.c:2713-2720 | a line comment without a newline ends the text |
| `JsonComments.BlockCommentGoes` | components/cJSON/src/cJSON.c:2721-2729 | a block comment goes up to its first closing mark, if and only if it does not begin with a slash; one that does ends at that slash |
| `JsonComments.OpenComment` | components/cJSON/src/cJSON.c:2721-2729 | a block comment that is not closed leads the scan beyond the text |
| `JsonComments.CommentsGo` | components/cJSON/src/cJSON.c:2685-2753 | blanks and comments of both kinds anywhere between the tokens of a printed tree leave exactly its unformatted text, which parses to the tree |

## Left out

- Load: default values, automatic update and the not-formatable mode are not modelled, nor the collection and second scan that follow when the record in PRE_DELETE finds no room; `RoomAtBoot` asks for that room.
- Recover: a power loss in an update of a database that still carries a GC mark from an earlier boot is covered as far as each write leaves the map on flash; the boot after it is not. A power loss while the boot itself runs is covered in the same way.
- RoomForGc, and with it Recover, asks for a place also for a waiting record whose copy was finished; `KeepsIff` shows that the map does not need it.
- DoGc: asks for room. What a collection without room does is told by Turn and Collected, which DoGc is shown to follow wherever there is room.
- GcCollect: asks for room, as DoGc does.
- ResumeGc: asks for room, as DoGc does.
- LossStaysFirm: recovery is not proved for a record cut short behind a lone status byte.
- ScanRecords: asks for room for the record in PRE_DELETE, as Load does.
- BootRecord: asks for room for the record in PRE_DELETE, as Load does.
- Open: the clearing of the two tables is a condition on its arguments in Load.
- SetKv: keys of exactly 64 bytes and records within the remain threshold of the sector payload are excluded, as listed under the assumptions.
- FreshRun: the same keys and records are excluded; with a power loss in the run the bound on refusals is not stated, because what it leaves may fill a clean sector.
- Replace: the same keys and records are excluded.
- FindAndReplace: the same keys and records are excluded.
- CreateKv: the same keys are excluded.
- FindKv: confused keys are excluded, as listed under the assumptions; so they are in GetKv and DelKey.
- GetKv: confused keys are excluded.
- DelKey: confused keys are excluded.
- ProgramRecord: the copy of name and value is one step each at record level; the snapshots inside such a copy show the same unfinished record.
- MoveKv: the copy in chunks of 32 bytes is told in the steps of ProgramRecord.
- FindNextKvAddr: the shortcut through the sector table at its head is part of NextKv.
- LookupKv: bytes behind a record's own end, which the source may compare, are not modelled.
- FlashWrite: programming over bytes that are not erased; status writes, which do so, are WriteStatus.
- ReadKv: the branch that hangs in an assertion on an overlong record is excluded.
- GetNextKvAddr: the direction from a right answer to the condition is stated where the search window reaches over the whole record.
- SetDefault: the default values are not created.
- Combined sectors, locks, flash failures, file mode and assertion hangs of FlashDB.
- Iter: callbacks that stop the iteration are not modelled.
- QueryCount: only logs in status WRITE are modelled.
- ReadTsl: logs cut short by a power loss (PRE_WRITE) are not modelled.
- Time series: status changes of logs, and re-initialisation of a rolled-over database, for which no clean restart holds.
- The threads, semaphores and locks of the asynchronous log.
- cJSON nodes are values: `prev` pointers, reference and constant-key flags, raw nodes, memory management and the error position are not modelled; children are collected in a sequence and then chained.
- ReadNumber: `strtod` on anything but integer literals of up to 15 digits is a parameter.
- RoundTrip: numbers other than 32-bit integers are covered as far as the C library reads its own output back.
- TextAccepted: numbers of more than 63 bytes, which the parser cuts, and numbers that `strtod` does not read to their end are excluded by `NumberOf`.
- TextPrinted: numbers other than 32-bit integers are covered as far as the C library prints numbers of section 6 of RFC 8259.
- PrintBuffered: a starting size of 0, for which the C library may return no buffer, is excluded.
- MinifyInPlace: texts with an unclosed string or comment are excluded, on which the source reads beyond the NUL.
- The rest of the cJSON interface (lookup, editing, comparison, duplication), the linked list, timers, command line, connections and the platform layer are not part of this model.
