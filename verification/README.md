# Partition tables, image writing and their helpers, verified

This project models the parts of a USB installer that change disks: the GPT and MBR partition
engine (`gdisk/`), the wrapper that formats a disk with it (`src/gpt_pal.cc`), and the copy loop
and the hash table of `src/gondar.cc`. `dafny verify dfyconfig.toml` checks all of it.

| file | what it holds |
|---|---|
| `Crc32.dfy` | the checksum, bit by bit and by table, and the damage it always detects |
| `GptFormat.dfy` | headers, entries and tables as bytes |
| `GptStore.dfy` | loading and saving as functions on a record and a disk |
| `GptRecovery.dfy` | what a load makes of every combination of damaged structures |
| `GptCrash.dfy` | what a load finds after a save that lost power at any sector |
| `GptLayout.dfy` | relocation, safe saves, the layout invariant, formatting end to end |
| `GptLifecycle.dfy` | saves, damage, crashes and loads in a row, from a disk that held anything |
| `GptCases.dfy` | disks on which a load does less than it could, made from any object that can be saved |
| `FreeSpace.dfy`, `Allocator.dfy`, `Alignment.dfy` | free sectors as a set, the searches, the partition array over runs |
| `GptData.dfy` | the GPTData object: fields, loops and disk accesses, each method tied to the above |
| `Spaces.dfy` | the doubly linked display list, sorted while it is walked |
| `MbrTable.dfy`, `MbrChain.dfy`, `MbrLayout.dfy`, `MbrRepair.dfy` | MBR tables, the EBR chain and its reader, round trips, repair |
| `MbrKept.dfy` | which partitions a repair keeps |
| `MbrCases.dfy`, `MbrKeptCases.dfy` | legal and repaired MBR tables, as concrete tables |
| `MbrData.dfy` | the BasicMBRData object |
| `Primes.dfy`, `HashTable.dfy` | the primality test, double hashing as a map |
| `ImageWriter.dfy` | the copy loop over a drive that fails in any way |
| `NameCodec.dfy` | partition names between UTF-8 and UTF-16 |
| `DivMod.dfy`, `Rearranging.dfy` | division and rearrangement, shared by the others |

The object files hold the loops and the state changes of the source; each method is proved equal
to a function on values or to an outright property, and the theorems are about those. Yes/no
answers, random GUIDs, boot sectors and the moment power is lost are parameters, so the theorems
hold for all of them. The checksum is the real CRC-32 throughout.

## Where the code does less than it says

Each of these is proved, with the condition under which the code does keep its promise.

- A save that loses power inside the main table is not always recovered: the load takes the torn
  table, because the backup table is held against the main header as well
  (`GptCrash.TornMainTable`, `GptCrash.TornMainTableIsLoaded`), and every save can be followed by
  such a one (`GptCases.TornSave`). Between regions it is recovered (`GptCrash.CrashBetweenRegions`).
- Main header and backup table damaged together: the damaged table is loaded
  (`GptRecovery.FaultTolerance`).
- Damage to the main header's geometry can heal silently when the object changes its size
  (`GptRecovery.GeometryDamageHealed`).
- A bad main table is not replaced by a good backup when the main table cannot be read at all
  (`GptRecovery.UnreadMainTable`, on a disk in `GptCases.LostMainTable`).
- A header size below 92 is stored with one checksum and read with another, and for every such
  header there is a table checksum with which it is refused (`GptCrash.UndersizedHeader`,
  `GptCrash.UndersizedHeaderRefused`).
- Moving the backup to the end of a grown disk can overwrite a partition when the usable range does
  not start right after the main table (`GptLayout.SaveSparesPartitions`,
  `GptLayout.GrownDiskIsOverwritten`).
- The search for the end of a free run may go one sector too far, onto a partition of one sector.
  Whether it does depends on the order of the array, and exactly when is `FreeSpace.NearestEndExact`
  (`FreeSpace.OrderDecides` has the same two partitions in both orders). The report on free space
  then counts each such run one sector too long: its number of runs is always right, its total if
  and only if there is no such run (`GptObject.GptData.FindFreeBlocks`), its longest run if and only
  if no longest run is one (`FreeSpace.LongestExact`). Automatic placement takes the wrong run
  exactly under `FreeSpace.SelectedExact` (`FreeSpace.ShorterSelected`), and two accepted requests
  can overlap (`Allocator.CreateExact`, `Allocator.OneSectorRequestBreaks`).
- The search for the last free sector wraps around below sector 0: it is right if and only if some
  sector up to the last usable one is in no entry (`GptObject.GptData.FindLastAvailable`,
  `FreeSpace.LastFreeWraps`).
- A logical partition that starts in sector 1 passes the legality check
  (`MbrCases.SectorOneIsLegal`), and its EBR overwrites the boot record; otherwise what is written
  is read back (`MbrLayout.RoundTripExact`, `MbrLayout.Overwritten`).
- The guard against EBR loops forgets boot records that point straight to others
  (`MbrChain.HopsNeverEnd`); the reader runs for ever exactly when it comes to a place from which
  such hops never end (`MbrChain.RunsForeverExactly`), which shows within as many hops as there are
  sectors (`MbrChain.StuckDecided`).
- The length of the extended partition is cut to 32 bits, which a legal table can exceed
  (`MbrLayout.ExtendedExact`, `MbrCases.WideSpanIsLegal`). Cut to 0 it stays in the table in memory
  after the write, and only then (`MbrObject.BasicMbrData.WriteMBRData`, `MbrCases.CutIsLegal`).
- The comparison that sorts MBR entries is no order when a partition starts on sector 0
  (`MbrLayout.PrecedesDisorders`). Primaries may, but the writer sorts the other entries only.
- Repairing an MBR table need not make it legal: a primary can end up on the sector that a logical
  needs for its EBR, within the span of the logicals (`MbrCases.RepairCanFail`). It does make it
  legal if no partition that fits covers the sector before another one
  (`MbrRepair.GappedIsRepaired`).
- Repairing can lose a partition for which a primary slot is free and which nothing bars, because
  the flags were computed before the first entry got its role (`MbrKeptCases.PartitionLost`).
  Exactly when is `MbrKept.MaximizeExactly`, never if the first entry comes omitted
  (`MbrKept.FirstOmitted`). Every partition that is left out has a reason (`MbrKept.DroppedOnly`), and
  partitions in ascending order that are apart are all kept (`MbrKept.AscendingKept`).
- The fit test lets a partition end one sector past the disk, and such a table can be legal
  (`MbrCases.FitTest`, `MbrCases.PastTheEndIsLegal`).
- Characters beyond the basic plane come back wrong, because the second of four bytes is marked as
  a first byte (`NameCodec.RoundTrip`, `NameCodec.FourBytesBreak`).
- The primality test accepts 1, and rejects a prime if no square of a smaller odd number reaches it
  in 32 bits (`Primes.IsPrime`): up to 65535 squared that is 3 alone (`Primes.AcceptedExactly`), and
  no odd number above 2^32 - 7 is accepted (`Primes.TopNumbersRefused`). A table of size 1 still
  works (`HashTable.Htab.Hash`). The comment on the table size speaks of primes only.

## Model

| member | source | states |
|---|---|---|
| `Crc32.ComputeChecksum` | gdisk/crc32.cc:32-43 | The table-driven loop computes, for every byte string, the checksum defined bit by bit as a shift register with polynomial 0xEDB88320 |
| `Crc32.GenerateTable` | gdisk/crc32.cc:50-71 | Every table entry is its index clocked through the shift register eight times |
| `Crc32.ClockOut` | gdisk/crc32.cc:58-69 | The inner loop of the table generator is that many clocks of the register |
| `Crc32.ByteStep` | gdisk/crc32.cc:38-41 | One table step per byte equals feeding the eight bits one by one |
| `Crc32.ClockByte` | gdisk/crc32.cc:40 | Eight clocks of a word are the shifted word combined with eight clocks of its low byte |
| `Crc32.ClockLinear` | gdisk/crc32.cc:58-69 | Clocking is linear over exclusive or |
| `Crc32.ShiftInjective` | gdisk/crc32.cc:60-68 | One clock of the register loses no information |
| `Crc32.FeedAllInjective` | gdisk/crc32.cc:38-41 | Feeding the same bits keeps different registers different |
| `Crc32.BurstDetected` | gdisk/crc32.cc:32-43 | Bit strings that differ only inside some window of up to 32 bits never end in the same register |
| `Crc32.ByteBurstDetected` | gdisk/crc32.cc:32-43 | Byte strings that differ only inside some window of up to four bytes never have the same checksum |
| `Crc32.CheckPreset` | gdisk/crc32.cc:32-43 | The checksum of four bytes 0xFF is 0xFFFFFFFF: they cancel the preset, and the final complement is left |
| `Crc32.CheckPolynomial` | gdisk/crc32.cc:32-71 | The checksum of FF FF FF 7F is 0x12477CDF, the complement of the polynomial 0xEDB88320 |
| `GptFormat.ParseHeaderBytes` | gdisk/gpt.h:43-59 | A header read back from its bytes is the header |
| `GptFormat.HeaderLayout` | gdisk/gpt.h:43-59 | Every header field has its fixed byte offset, least significant byte first |
| `GptFormat.HeaderReadFrom` | gdisk/gpt.h:43-59 | A header is read from those same places, whatever the bytes |
| `GptFormat.HeaderBytesParse` | gdisk/gpt.h:43-59 | Any 512 bytes are the encoding of the header they are read as |
| `GptFormat.Signature` | gdisk/support.h:63 | The signature spells "EFI PART" |
| `GptFormat.ParsePartBytes` | gdisk/gptpart.h:48-53 | A partition entry read back from its 128 bytes is the entry |
| `GptFormat.PartBytesParse` | gdisk/gptpart.h:48-53 | Any 128 bytes are the encoding of the entry they are read as |
| `GptFormat.PartLayout` | gdisk/gptpart.h:48-53 | Every field of an entry has its fixed byte offset, the first sector at 32 and the last at 40 |
| `GptFormat.ParseTableBytes` | gdisk/gpt.cc:1350-1363 | A partition table read back from its bytes is the table |
| `GptFormat.TableBytesParse` | gdisk/gpt.cc:1350-1363 | Any bytes of the right length are the encoding of the table they are read as, whose entries fit their fields |
| `GptFormat.TableLayout` | gdisk/gptpart.h:48-53 | The same for every entry of a table of any length |
| `GptFormat.TableReadFrom` | gdisk/gptpart.h:48-53 | A table is read from those same places, whatever the bytes |
| `GptFormat.ParseTableInjective` | gdisk/gpt.cc:1057-1091 | Different table bytes are different tables |
| `GptObject.GptData.LoadHeader` | gdisk/gpt.cc:1028-1050 | Reads a header, checks its checksum and sizes the array for it exactly as the specification says |
| `GptObject.GptData.ReadHeaders` | gdisk/gpt.cc:899-910 | Reads the main header, then the backup header where a good main header says it is, else on the last sector |
| `GptObject.GptData.LoadPartitionTable` | gdisk/gpt.cc:1057-1091 | Reads a table into the array and compares its checksum with the header’s |
| `GptObject.GptData.ChooseTable` | gdisk/gpt.cc:942-975 | Which of the two tables ends up in memory, and the two table flags; once something has gone wrong the backup table is not read in place of a bad main table |
| `GptObject.GptData.ForceLoadGPTData` | gdisk/gpt.cc:896-1005 | The whole load, on every disk, is the specification function ForceLoad that the recovery and crash theorems are about |
| `GptObject.GptData.RebuildMainHeader` | gdisk/gpt.cc:631-649 | Rebuilds the main header from the backup header |
| `GptObject.GptData.RebuildSecondHeader` | gdisk/gpt.cc:652-670 | Rebuilds the backup header from the main header |
| `GptRecovery.MainHeaderChoice` | gdisk/gpt.cc:944-975 | With a good main header the main table is used unless its checksum is wrong and the backup table satisfies both headers |
| `GptRecovery.BackupHeaderChoice` | gdisk/gpt.cc:947-975 | With only the backup header the backup table is used even if its checksum is wrong |
| `GptRecovery.BothHeadersValid` | gdisk/gpt.cc:896-1005 | Two good headers: which table is loaded, and valid is reported exactly when both tables carry the checksum both headers expect |
| `GptRecovery.MainHeaderOnly` | gdisk/gpt.cc:928-1000 | Damaged backup header: the whole loaded object, with the table chosen, the backup header rebuilt from the main one in its own place and with its own table, and the state corrupt |
| `GptRecovery.BackupHeaderOnly` | gdisk/gpt.cc:934-1000 | Damaged main header: the whole loaded object, with the backup table whatever it holds, the main header rebuilt from the backup one in its own place and with its own table, and the state corrupt |
| `GptRecovery.NoHeader` | gdisk/gpt.cc:911-921 | Two damaged headers: the state is invalid and nothing but the headers as read has changed |
| `GptRecovery.FaultTolerance` | gdisk/gpt.cc:896-1005 | For all sixteen combinations of damaged structures and objects of every size: the original table is loaded if and only if the faults are recoverable, a damaged header is rebuilt field by field from the other, valid is reported if and only if nothing is damaged, invalid if and only if both headers are; and what is loaded when a damaged main header heals by resizing |
| `GptRecovery.TableChoice` | gdisk/gpt.cc:942-975 | With a valid main header, whatever it says of the main table: the backup table is used if and only if it satisfies both headers and the main table could be read and does not satisfy its own |
| `GptRecovery.BackupFound` | gdisk/gpt.cc:899-910 | On a disk that has grown or shrunk: the backup header is taken from where the main one says if that is on the disk and from the last sector otherwise, and the state is valid if and only if both tables satisfy both headers |
| `GptRecovery.UnreadMainTable` | gdisk/gpt.cc:968-975 | A backup table that satisfies two valid headers replaces a bad main table if and only if every sector of the main table is on the disk |
| `GptCases.LostMainTable` | gdisk/gpt.cc:968-975 | For every object that can be saved, a table and a disk with two valid headers and an intact backup table that is not loaded |
| `GptRecovery.HealedLoad` | gdisk/gpt.cc:1028-1050 | What is loaded, and which state is reported, when a damaged main header becomes valid through resizing |
| `GptRecovery.WrongTable` | gdisk/gpt.cc:1097-1131 | A table whose checksum is wrong is not the original table |
| `GptRecovery.BurstIsDamage` | gdisk/gpt.cc:1097-1131 | Overwriting up to four consecutive bytes of a table always counts as damage, by the CRC theorem |
| `GptRecovery.GeometryDamageHealed` | gdisk/gpt.cc:1028-1050 | Damage confined to the main header’s geometry is undone, and reported as no damage, when the object had another size before |
| `GptObject.GptData.SavePartitionTable` | gdisk/gpt.cc:1350-1363 | Writes a table sector by sector, as far as power lasts |
| `GptObject.GptData.RecomputeCRCs` | gdisk/gpt.cc:583-627 | Seals the table and both headers with their checksums |
| `GptObject.GptData.WriteRegions` | gdisk/gpt.cc:1226-1246 | Backup table, backup header, main table, main header, MBR, in this order, cut off where power is lost |
| `GptCrash.Recomputed` | gdisk/gpt.cc:583-627 | After RecomputeCRCs both headers are valid and expect the checksum of the table in memory |
| `GptCrash.SealedAnySize` | gdisk/gpt.cc:535-578 | Whatever the size field says, exactly one checksum is accepted: the one over that many bytes if that is from 92 up to the sector size, else over 92 bytes |
| `GptCrash.UndersizedHeader` | gdisk/gpt.cc:583-627 | A header size below the minimum: the saved header is accepted if and only if the sums over the stored size and over the minimum size coincide |
| `GptCrash.OneUndersizedHeader` | gdisk/gpt.cc:583-627 | Of two undersized headers that differ only in the checksum of the table, where the size does not cover it, at most one is accepted |
| `GptCrash.UndersizedHeaderRefused` | gdisk/gpt.cc:583-627 | For every header with too small a size there is a table checksum with which a save writes it and a load refuses it |
| `GptFormat.TableChecksumField` | gdisk/gpt.h:43-59 | The checksum of the table is bytes 88 to 91 of a header, and nothing before it depends on it |
| `GptCrash.TornRead` | gdisk/gpt.cc:1350-1363 | A table read after some of its sectors were rewritten is the new sectors followed by the old |
| `GptCrash.ByteRead` | gdisk/gpt.cc:1057-1091 | Which byte of which sector a read returns |
| `GptCrash.HeadersAfter` | gdisk/gpt.cc:1226-1246 | After k sector writes each header is the old or the new one, and which |
| `GptCrash.TablesAfter` | gdisk/gpt.cc:1226-1246 | After k sector writes each table region holds the new sectors written so far and then the old ones |
| `GptCrash.LoadAfterCrash` | gdisk/gpt.cc:1226-1246 | What a load finds after every number k of sector writes: the old table, the new one, or the torn main table; and valid is reported if and only if both headers and both tables agree |
| `GptCrash.CrashBetweenRegions` | gdisk/gpt.cc:1226-1246 | With atomic regions, a save cut off after any prefix of its five regions loads exactly the old or exactly the new table, and reports valid if and only if nothing or the main header has been written or the two tables have the same checksum |
| `GptCrash.TornMainTable` | gdisk/gpt.cc:896-1005 | Power lost inside the main table: the old or new table is loaded if and only if the mixture is one of them or the tables share a checksum it lacks |
| `GptCrash.TornMainTableIsLoaded` | gdisk/gpt.cc:961-975 | A concrete family of saves after which neither table is loaded although the backup copy is complete |
| `GptCases.TornSave` | gdisk/gpt.cc:961-975 | After any complete save of a table of more than one sector there is an object of the same geometry whose save, cut off inside the main table, leaves a disk from which neither table is loaded |
| `GptLayout.InterruptedSave` | gdisk/gpt.cc:1139-1246 | A save that needs no relocation and loses power is exactly the interrupted save of the crash theorems |
| `GptLifecycle.FullSave` | gdisk/gpt.cc:1212-1246 | Whatever the disk held, a complete save leaves both tables and both headers consistent |
| `GptLifecycle.SavedPlaces` | gdisk/gpt.cc:1226-1246 | After a complete save every field of both headers and of every entry of both tables is in its place on the disk |
| `GptLifecycle.SaveThenLoad` | gdisk/gpt.cc:896-1005 | Loading after a complete save gives the object saved, every flag and the state included |
| `GptLifecycle.SaveThenDamage` | gdisk/gpt.cc:896-1005 | After a complete save over anything, the recoverable faults are recovered and no others, unless the main header heals |
| `GptLifecycle.LoadThenSave` | gdisk/gpt.cc:896-1005 | After any recoverable damage, loading and saving what was loaded makes the disk consistent again, with the table it had, unless the main header heals |
| `GptLifecycle.SaveThenCrash` | gdisk/gpt.cc:1226-1246 | A complete save and then one cut off between regions, over anything: the first table or the second is loaded, and which, and valid is reported only when all four structures agree |
| `GptLifecycle.FormattedIsSavable` | gdisk/gpt.cc:1969-2014 | A cleared object with one partition meets every condition of the save theorems |
| `GptLifecycle.FormatThenLoad` | src/gpt_pal.cc:79-91 | On every large enough disk, whatever it held: format, save and load give exactly the one partition, reported valid, with nothing for Verify to find in the loaded object |
| `GptObject.GptData.SaveGPTData` | gdisk/gpt.cc:1139-1277 | Accepts, relocates, seals and writes as the specification says, for every combination of answers and every loss of power |
| `GptLayout.AcceptedExactly` | gdisk/gpt.cc:1139-1225 | A save goes on to write if and only if somebody agreed and every used partition is a range of usable sectors on the disk, once the backup is back on it, and shares no sector with another one |
| `GptObject.GptData.Relocate` | gdisk/gpt.cc:1151-1194 | The three relocation branches, with the range check between the first and the second |
| `GptLayout.RelocatedOntoDisk` | gdisk/gpt.cc:1151-1194 | Whatever the table: if nobody objects, the backup header ends up on the last sector and the usable range on the disk, with the backup table right behind it if anything moved |
| `GptLayout.RelocatedDeclined` | gdisk/gpt.cc:1151-1194 | If everything is declined, only a backup header beyond the end of the disk is moved |
| `GptObject.GptData.CheckGPTSize` | gdisk/gpt.cc:437-485 | Counts no problem if and only if every used partition lies in the usable range |
| `GptObject.GptData.FindOverlaps` | gdisk/gpt.cc:711-729 | Counts no problem if and only if no two partitions overlap |
| `GptObject.GptData.FindInsanePartitions` | gdisk/gpt.cc:736-753 | Counts no problem if and only if every used partition is non-empty and on the disk |
| `GptLayout.OverlapMeansShared` | gdisk/gptpart.cc:409-414 | The overlap test holds if and only if the partitions share a sector |
| `GptLayout.ChecksMeaning` | gdisk/gpt.cc:370-391 | The size, overlap and sanity checks together find nothing if and only if every used partition is a range of usable sectors on the disk and no two share a sector |
| `GptLayout.SaveHits` | gdisk/gpt.cc:1226-1246 | The sectors a save writes are exactly its five regions |
| `GptLayout.SaveSparesPartitions` | gdisk/gpt.cc:1139-1246 | For every disk size and every combination of answers, a save overwrites a used partition if and only if it pushes the backup out while a partition lies where the backup table will go |
| `GptLayout.GaplessSaveIsSafe` | gdisk/gpt.cc:1139-1246 | With the usable range right after the main table, no save touches a partition, whatever is answered |
| `GptLayout.GrownDiskIsOverwritten` | gdisk/gpt.cc:2023-2035 | A concrete disk that grew: a quiet save writes the backup table into a partition |
| `GptObject.GptData.MoveSecondHeaderToEnd` | gdisk/gpt.cc:2023-2035 | New places of the backup header, backup table and last usable sector |
| `GptObject.GptData.SetGPTSize` | gdisk/gpt.cc:1802-1861 | Refuses to drop a used entry, else resizes; the count is changed either way |
| `GptLayout.ResizeKeeps` | gdisk/gpt.cc:1802-1861 | A resize succeeds if and only if every used entry still has a place, and every used entry then stays in its place |
| `GptObject.GptData.FindFirstUsedLBA` | gdisk/gpt.cc:2257-2267 | The least first sector of a used partition |
| `GptObject.GptData.MoveMainTable` | gdisk/gpt.cc:1865-1878 | Moves the main table if and only if it then ends before the first used sector |
| `GptLayout.MainTableMoved` | gdisk/gpt.cc:1865-1878 | The main table is moved if and only if it then ends before every used partition, and the partitions stay in the usable range |
| `GptObject.GptData.ClearGPTData` | gdisk/gpt.cc:1969-2014 | A new object: default table size, both headers placed and mirrored, nothing used |
| `GptLayout.DefaultEntriesMeaning` | gdisk/gpt.cc:1969-1990 | A new table has at least 128 entries, fills whole sectors, and has no more than that takes |
| `GptLayout.ClearedIsLaid` | gdisk/gpt.cc:1969-2014 | On a large enough disk everything a cleared object places is in order and disjoint |
| `GptLayout.MoveKeepsLayout` | gdisk/gpt.cc:1802-1878 | MoveSecondHeaderToEnd, a successful SetGPTSize and MoveMainTable keep MBR, headers, tables and usable range disjoint and in order, and the two headers in agreement |
| `GptLayout.LayoutRun` | gdisk/gpt.cc:1802-1878 | The layout invariant over every run of such moves, with every used entry in its place |
| `GptObject.GptData.ClearDisk` | src/gpt_pal.cc:41-56 | On a cleared object leaves exactly one used partition, from the first aligned usable sector to the last usable one, and nothing for Verify to find |
| `GptObject.GptData.Verify` | gdisk/gpt.cc:210-432 | Counts no problem if and only if every condition on checksums, headers, places and partitions holds, and sets the main header’s own place right |
| `GptObject.GptData.MakeEmptyPartition` | src/gpt_pal.cc:79-91 | A new table, one partition, a quiet save and Verify: succeeds on every large enough disk, whatever it held, and every fresh object (one without used entries) that loads the disk finds exactly that partition, valid and without problems |
| `GptLifecycle.Formatting` | src/gpt_pal.cc:41-56 | The save is accepted and moves nothing, the saved object has no problems, and every fresh object loads the disk back |
| `GptLayout.FormattedDisk` | src/gpt_pal.cc:79-91 | Any one partition in the usable range of a cleared object passes Verify, is accepted by a quiet save, needs no relocation and is not overwritten |
| `Allocator.FirstAligned` | src/gpt_pal.cc:43-44 | On an empty table the start is the least multiple of the alignment in the usable range, if there is one |
| `GptObject.GptData.IsFree` | gdisk/gpt.cc:2368-2387 | True exactly on usable sectors in no partition |
| `GptObject.GptData.FindFirstAvailable` | gdisk/gpt.cc:2223-2253 | The first free sector from a start on, 0 if and only if there is none; terminates on every array |
| `GptObject.GptData.FindLastInFree` | gdisk/gpt.cc:2320-2332 | The search as a function of the array, whose meaning NearestEndMeaning states |
| `FreeSpace.NearestEndMeaning` | gdisk/gpt.cc:2320-2332 | On every well-formed table the result is the end of the free run, or one sector further when a partition of a single sector follows |
| `FreeSpace.NearestEndExact` | gdisk/gpt.cc:2320-2332 | On every well-formed table, from every free sector: the result is the end of the run if no entry that starts right behind it is passed over, and the sector behind it otherwise |
| `FreeSpace.OverIsSingle` | gdisk/gpt.cc:2320-2332 | Only a partition of a single sector is passed over |
| `FreeSpace.OrderDecides` | gdisk/gpt.cc:2320-2332 | The same two partitions in two orders: the search is right on one array and not on the other |
| `GptObject.GptData.FindFreeBlocks` | gdisk/gpt.cc:2336-2362 | On a well-formed table the number of maximal free runs is exact, the total is the free sectors plus one for every run that is gone past, so exact if and only if there is none, and the longest is the largest such measure; all zero without a disk |
| `FreeSpace.ScanStep` | gdisk/gpt.cc:2346-2358 | One round of the scan, on every well-formed table: exactly one more maximal free run, measured with the sector gone past |
| `FreeSpace.CountOverZero` | gdisk/gpt.cc:2346-2358 | The count of sectors gone past is 0 if and only if there is none |
| `FreeSpace.LongestExact` | gdisk/gpt.cc:2351-2353 | The reported longest run is right if and only if no longest run is gone past |
| `GptObject.GptData.FindFirstInLargest` | gdisk/gpt.cc:2271-2288 | The start of the earliest run with the largest measure; 0 if and only if nothing is free |
| `FreeSpace.SelectedExact` | gdisk/gpt.cc:2271-2288 | It is the earliest longest run if and only if that run is gone past itself, or no other longest run is and no earlier run one sector shorter |
| `FreeSpace.ShorterSelected` | gdisk/gpt.cc:2271-2288 | A table on which the shorter of two runs is selected |
| `GptObject.GptData.FindLastAvailable` | gdisk/gpt.cc:2292-2317 | The last free sector, 0 if there is none, if and only if some sector up to the last usable one is in no entry, on overlapping and out-of-range tables too; otherwise the last sector of the 64-bit range that is in no entry |
| `FreeSpace.LastFreeExactly` | gdisk/gpt.cc:2306-2316 | Where the search stops is the last free sector unless it wrapped around, which it did if and only if every sector up to the last usable one is in some entry |
| `FreeSpace.LastFreeWraps` | gdisk/gpt.cc:2306-2316 | A full well-formed table for which the sector reported is past the usable range |
| `FreeSpace.RunFound` | gdisk/gpt.cc:2346-2358 | Each run found adds its length and one run to the totals |
| `FreeSpace.Conservation` | gdisk/gpt.cc:2336-2362 | Free sectors and partition lengths add up to the usable range |
| `GptObject.GptData.Align` | gdisk/gpt.cc:2117-2153 | The two scans agree with the aligned sector as a function of the free sectors |
| `Allocator.AlignStaysInRun` | gdisk/gpt.cc:2117-2153 | A free sector moves only onto a multiple of the alignment in the same free run, and stays put only if neither neighbouring multiple can be reached |
| `Allocator.AlignExact` | gdisk/gpt.cc:2117-2153 | A sector moves down to the multiple below it if and only if everything in between is free, otherwise up to the next multiple if and only if everything up to there is |
| `GptObject.GptData.CreatePartition` | gdisk/gpt.cc:1915-1935 | Accepts or refuses and changes one entry, as the specification says |
| `Allocator.CreateGranted` | gdisk/gpt.cc:1915-1935 | A request is granted if and only if the entry is there and unused and every sector from the aligned start on is free, the last one possibly being one the search goes on to; the entry is then exactly the one asked for, and nothing else changes |
| `GptObject.GptData.DeletePartition` | gdisk/gpt.cc:1892-1911 | Blanks one entry between the lowest and the highest used one, and refuses any other |
| `Allocator.DeleteExact` | gdisk/gpt.cc:1892-1910 | An entry is blanked if and only if it is used or has used entries on both sides, and exactly its sectors become free |
| `GptObject.GptData.SwapPartitions` | gdisk/gpt.cc:1949-1961 | Exchanges two entries |
| `GptObject.GptData.SortGPT` | gdisk/gpt.cc:1939-1942 | Leaves an ordered rearrangement of the same entries |
| `Allocator.SortMeaning` | gdisk/gpt.cc:1939-1942 | Entries with sectors come first, in ascending order |
| `GptObject.GptData.GetPartRange` | gdisk/gpt.cc:2168-2188 | The number of used entries, and the lowest and highest of them |
| `Allocator.CreateExact` | gdisk/gpt.cc:1915-1935 | An accepted request leaves a well-formed table if and only if its last sector was free |
| `Allocator.RunKeeps` | gdisk/gpt.cc:1892-1961 | Over every run of create, delete, swap and sort, used partitions stay disjoint, in range and wider than one sector, unused entries blank, and space is conserved |
| `Allocator.OneSectorRequestBreaks` | gdisk/gpt.cc:2326 | Two accepted requests on an empty table that end up overlapping, when single-sector requests are allowed |
| `GptObject.GptData.ComputeAlignment` | gdisk/gpt.cc:2437-2461 | The loops end at the greatest exponent, with the advanced-format minimum |
| `Alignment.GreatestExponentMeaning` | gdisk/gpt.cc:2437-2461 | That exponent is the greatest up to the cap whose power of two divides the first sector of every used partition |
| `Alignment.Log2Meaning` | gdisk/gpt.cc:2443 | The cap is the greatest power of two not above one mebibyte in sectors |
| `Spaces.SpaceList.EmptySpaces` | gdisk/gptcurses.cc:72-82 | Leaves an empty list |
| `Spaces.SpaceList.MakeSpacesFromParts` | gdisk/gptcurses.cc:87-103 | One node per used partition |
| `Spaces.SpaceList.UnlinkSpace` | gdisk/gptcurses.cc:151-165 | Takes one node out of a doubly linked chain and mends both ends |
| `Spaces.SpaceList.LinkToEnd` | gdisk/gptcurses.cc:168-180 | Puts one node after the last one |
| `Spaces.SpaceList.SortSpaces` | gdisk/gptcurses.cc:183-203 | Selection sort in place: an ascending rearrangement of the same nodes, doubly linked |
| `Spaces.SpaceList.AddEmptySpace` | gdisk/gptcurses.cc:106-116 | In a list in order the new gap lands in its place and every other node stays in its |
| `Spaces.SpaceList.AddEmptySpaces` | gdisk/gptcurses.cc:120-147 | The walk, sorted anew at each addition, ends with spaces that tile the range, no two gaps in a row, and the same partitions |
| `Spaces.SpaceList.IdentifySpaces` | gdisk/gptcurses.cc:208-211 | From any disjoint in-range partitions: a well-formed list that tiles the usable range exactly, shows each used partition once and never has two adjacent gaps |
| `Spaces.SortedUnique` | gdisk/gptcurses.cc:183-203 | Nodes with different first sectors have only one sorted arrangement |
| `Primes.IsPrime` | src/gondar.cc:1182-1190 | An odd 32-bit number is accepted if and only if it is 1, or a prime that the 32-bit square of some smaller odd number reaches |
| `Primes.AcceptedExactly` | src/gondar.cc:1182-1190 | Up to 65535 squared those are 1 and the odd primes other than 3 |
| `Primes.TopNumbersRefused` | src/gondar.cc:1185-1187 | No odd number above 2^32 - 7 is accepted: squares are 1 modulo 8 |
| `Primes.PrimeStride` | src/gondar.cc:1295-1305 | Modulo a prime a smaller stride first returns after exactly that many steps |
| `HashTable.NextSize` | src/gondar.cc:1207-1212 | The table size: the first accepted odd number from the request on, or 1 if there is none below 2^32; terminates even past the largest 32-bit number |
| `HashTable.Htab.Create` | src/gondar.cc:1198-1223 | Refuses an existing table, else makes an empty one of exactly that size |
| `HashTable.ProbesDistinct` | src/gondar.cc:1295-1305 | No slot is tried twice within size attempts |
| `HashTable.ProbeComesBack` | src/gondar.cc:1301-1310 | The attempt after the last one is the first slot again |
| `HashTable.ProbesCover` | src/gondar.cc:1295-1310 | The probe visits every slot exactly once before it stops |
| `HashTable.NotStored` | src/gondar.cc:1298-1318 | A string not met before the first free slot of its probe is nowhere in the table |
| `HashTable.Stored` | src/gondar.cc:1328-1338 | Storing a string where its probe ends keeps every stored string reachable |
| `HashTable.Htab.Search` | src/gondar.cc:1284-1318 | The probe loop ends at the string, at a free slot, or back at its start |
| `HashTable.Htab.Hash` | src/gondar.cc:1260-1339 | A known string gets its slot, a new one the first slot of its probe that is free, and 0 is returned exactly for a new string in a full table |
| `HashTable.MapOverRuns` | src/gondar.cc:1260-1339 | Over every run of calls: same slot if and only if same string, refused if and only if the table is full of other strings |
| `ImageWriter.TryChunk` | src/gondar.cc:2245-2269 | At most three attempts at one chunk, each from its start, for every pattern of failures |
| `ImageWriter.WriteDrive` | src/gondar.cc:2166-2276 | For every pattern of failed or short writes and seeks: nothing beyond the rounded image is touched, attempts are aligned and bounded, success means the image is on the drive, and it succeeds if no three writes in a row fail |
| `ImageWriter.ClippedPastTarget` | src/gondar.cc:2237-2244 | Past the target the clipped size underflows and rounding brings it back to zero |
| `ImageWriter.NextChunk` | src/gondar.cc:2237-2244 | The next chunk is sector-aligned, stays within the rounded image and takes the copy as far as it goes |
| `NameCodec.SetName` | gdisk/gptpart.cc:201-268 | Stores what the decoder yields and fills up with zeros, for every byte string |
| `NameCodec.GetDescription` | gdisk/gptpart.cc:89-142 | Turns the code units back into bytes, up to a zero or something invalid |
| `NameCodec.DecodesUtf8` | gdisk/gptpart.cc:206-242 | The decoder undoes UTF-8 for every character |
| `NameCodec.StoresPrefix` | gdisk/gptpart.cc:205-262 | What is kept of a text is a prefix of its characters in UTF-16 |
| `NameCodec.StoresUntilBroken` | gdisk/gptpart.cc:205-262 | A name that is broken somewhere is cut there: the text before that place is stored as far as it fits |
| `NameCodec.FitsMeaning` | gdisk/gptpart.cc:243-261 | That prefix is the longest one that fits 36 code units |
| `NameCodec.DescribesText` | gdisk/gptpart.cc:93-140 | The surrogates of each character lead back to it |
| `NameCodec.RoundTrip` | gdisk/gptpart.cc:89-142 | What comes back is the kept prefix if and only if it has no character beyond the basic plane |
| `NameCodec.FourBytesBreak` | gdisk/gptpart.cc:134-139 | A single character of four bytes comes back as something else |
| `MbrTable.OverlapMeansShared` | gdisk/mbrpart.cc:230-233 | The overlap test holds if and only if the partitions share a sector |
| `MbrTable.EbrIsFree` | gdisk/basicmbr.cc:1480-1495 | A sector counted as EBR is on the disk and in no included partition |
| `MbrTable.ExtendedApart` | gdisk/basicmbr.cc:894-911 | On a legal table no primary touches the span from the first EBR to the last logical sector |
| `MbrTable.EbrsApart` | gdisk/basicmbr.cc:929-939 | On a legal table every EBR is on the disk, in no included partition, and no two logicals share one |
| `MbrLayout.ExtendedExact` | gdisk/basicmbr.cc:1373-1380 | The extended partition covers exactly that span if and only if its length fits 32 bits |
| `MbrObject.BasicMbrData.SectorUsedAs` | gdisk/basicmbr.cc:1480-1495 | The scan with its early exit is the usage of the sector over all entries |
| `MbrObject.BasicMbrData.FindOverlaps` | gdisk/basicmbr.cc:739-766 | Counts no problem if and only if no two included partitions overlap |
| `MbrObject.BasicMbrData.CountPrimaries` | gdisk/basicmbr.cc:770-782 | Non-empty primaries, and one more if there is a logical |
| `MbrObject.BasicMbrData.NumLogicals` | gdisk/basicmbr.cc:785-793 | The number of logicals |
| `MbrObject.BasicMbrData.FirstLogicalLBA` | gdisk/basicmbr.cc:864-875 | The least first sector of a logical |
| `MbrObject.BasicMbrData.LastLogicalLBA` | gdisk/basicmbr.cc:879-889 | The greatest last sector of a logical |
| `MbrObject.BasicMbrData.AreLogicalsContiguous` | gdisk/basicmbr.cc:894-911 | No primary starts between the first EBR and the last logical sector |
| `MbrObject.BasicMbrData.DoTheyFit` | gdisk/basicmbr.cc:915-924 | Every partition fits the disk size |
| `MbrObject.BasicMbrData.SpaceBeforeAllLogicals` | gdisk/basicmbr.cc:929-939 | Every logical has a free sector before it |
| `MbrObject.BasicMbrData.IsLegal` | gdisk/basicmbr.cc:949-958 | All five conditions together |
| `MbrObject.BasicMbrData.FindNextInUse` | gdisk/basicmbr.cc:974-982 | The next included entry |
| `MbrObject.BasicMbrData.RemoveLogicalsFromFirstFour` | gdisk/basicmbr.cc:1309-1332 | A rearrangement that, with room, leaves no non-primary in the first four slots |
| `MbrObject.BasicMbrData.MovePrimariesToFirstFour` | gdisk/basicmbr.cc:1336-1357 | A rearrangement that puts every primary of a table with at most four into the first four slots |
| `MbrObject.BasicMbrData.SortMBR` | gdisk/basicmbr.cc:1159-1162 | An ordered rearrangement of the entries from a slot on |
| `MbrLayout.PrecedesDisorders` | gdisk/mbrpart.cc:110-115 | Two partitions, one on sector 0, and an empty entry that the comparison does not order |
| `MbrObject.BasicMbrData.CreateExtended` | gdisk/basicmbr.cc:1363-1400 | Fails exactly on an illegal table or on a 0xEE entry beside logicals; else primaries in slots 0 to 3, logicals ascending after them, and the extended partition in a spare slot |
| `MbrObject.BasicMbrData.WriteChain` | gdisk/basicmbr.cc:407-432 | One EBR before each logical, linked to the next, and no other sector changed |
| `MbrObject.BasicMbrData.WriteMBRData` | gdisk/basicmbr.cc:373-435 | An illegal table is refused with nothing written; otherwise no sector of an included partition but the boot record is touched; written is the arranged table with the extended partition in a spare slot and a typed chain of EBRs; the disk reads back as the same partitions if and only if no EBR falls on the boot record, and the table in memory keeps its partitions if and only if the extended partition is not cut to length 0 |
| `MbrObject.KeptInMemory` | gdisk/basicmbr.cc:1186-1199 | After the extended partition was added and the extended entries deleted, the table has the partitions it had, unless the length was cut to 0 |
| `MbrObject.BasicMbrData.ReadLogicalParts` | gdisk/basicmbr.cc:279-351 | Follows the links as the reader machine does, wherever the walk ends |
| `MbrObject.BasicMbrData.ReadMBRData` | gdisk/basicmbr.cc:170-269 | The four entries, each extended one replaced by what its chain holds |
| `MbrObject.BasicMbrData.DeleteExtendedParts` | gdisk/basicmbr.cc:1186-1199 | Blanks exactly the non-empty entries of types 0x05, 0x0f and 0x85 |
| `MbrObject.BasicMbrData.DeleteOversizedParts` | gdisk/basicmbr.cc:1169-1182 | Blanks exactly the entries that do not fit |
| `MbrRepair.FittingFits` | gdisk/basicmbr.cc:1169-1182 | What is left fits the disk and the 32-bit fields of a record, and a table that does loses nothing |
| `MbrObject.BasicMbrData.UpdateCanBeLogical` | gdisk/basicmbr.cc:809-859 | Each entry’s two flags, from the roles of all entries |
| `MbrObject.BasicMbrData.MaximizeLogicals` | gdisk/basicmbr.cc:1220-1238 | From the last entry to the first, each gets the best role it can have at that moment; empty entries end up omitted |
| `MbrObject.BasicMbrData.MaximizePrimaries` | gdisk/basicmbr.cc:1241-1253 | Omitted entries that can be primary become primary in array order, up to four slots, with the flags brought up to date after each; what that achieves is FreshFill and MaximizeSaturates |
| `MbrKept.FreshFill` | gdisk/basicmbr.cc:1241-1253 | With flags that are up to date: afterwards four slots are in use, or every entry left out ends before a logical or lies strictly within the logicals |
| `MbrKept.FilledExactly` | gdisk/basicmbr.cc:1241-1253 | With any flags: four slots are in use or every entry left out is barred, if and only if four slots are in use or no entry before the first one added is left out without being barred |
| `MbrKept.MaximizeExactly` | gdisk/basicmbr.cc:1293-1299 | The same for the flags that a repair has at that point |
| `MbrKept.MaximizeSaturates` | gdisk/basicmbr.cc:1293-1299 | In a repair: four slots are in use, or every entry left out is barred so, or was, or had no slot, with the first entry in the role it came with |
| `MbrKept.FirstOmitted` | gdisk/basicmbr.cc:1293-1299 | If the first entry comes omitted there is no excuse but being barred |
| `MbrObject.BasicMbrData.TrimPrimaries` | gdisk/basicmbr.cc:1257-1268 | Omits exactly the primaries from some entry on, until four slots are needed |
| `MbrObject.BasicMbrData.MakeLogicalsContiguous` | gdisk/basicmbr.cc:1273-1289 | In array order, each primary within the logicals becomes logical if the sector before it is unused and is omitted otherwise; nothing else changes |
| `MbrKept.GappedJoins` | gdisk/basicmbr.cc:1273-1289 | Among partitions that are apart the contiguity pass omits nothing: primaries within the span become logical |
| `MbrObject.BasicMbrData.OmitOverlaps` | gdisk/basicmbr.cc:1202-1216 | Afterwards no two included partitions overlap, and an entry was omitted only because an overlapping one is larger, or as large and earlier |
| `MbrObject.BasicMbrData.MakeItLegal` | gdisk/basicmbr.cc:1293-1304 | A legal table is left alone; on a non-empty disk any other becomes its Repair, with no overlaps, at most four primary slots and everything fitting, and legal if no partition that fits covers the sector before another one |
| `MbrKept.DroppedOnly` | gdisk/basicmbr.cc:1293-1304 | A partition that fits is left out by a repair only if it is outdone by an overlapping one, all four slots are in use, it was made primary within the logicals, or it has one of those excuses |
| `MbrKept.AscendingKept` | gdisk/basicmbr.cc:1293-1304 | Partitions in ascending order that are apart, with no logical before a primary, are all kept: the first one primary, the others logical, and the table is legal |
| `MbrKeptCases.FourKept` | gdisk/basicmbr.cc:1293-1304 | An illegal table of four partitions that all come back, three of them as primaries beside the extended partition |
| `MbrKeptCases.FirstStaysLogical` | gdisk/basicmbr.cc:1220-1238 | An illegal table whose first partition stays the only logical, because the other three take the slots |
| `MbrKeptCases.PartitionLost` | gdisk/basicmbr.cc:1241-1253 | A table whose repair is legal and leaves out a partition that could be a fourth primary |
| `MbrChain.ChainRead` | gdisk/basicmbr.cc:279-351 | A chain written for any number of logicals reads back as those logicals, in order, in consecutive slots |
| `MbrChain.HopsNeverEnd` | gdisk/basicmbr.cc:288-332 | Two boot records that point straight to each other keep the reader running for ever |
| `MbrChain.NoHopsEnds` | gdisk/basicmbr.cc:288-349 | Where every sequence of hops leads out of the hops, every walk ends |
| `MbrChain.RunsForeverExactly` | gdisk/basicmbr.cc:288-349 | The reader runs for ever if and only if it comes to a place from which hops lead to other hops for ever |
| `MbrChain.StuckDecided` | gdisk/basicmbr.cc:288-349 | Whether hops lead on for ever shows within as many hops as there are sectors |
| `MbrChain.GuardedStep` | gdisk/basicmbr.cc:288-349 | One round: a hop, or the next slot, each to where the record leads; the loop guard remembers the places of logicals, and of the hops only the last one |
| `MbrChain.ReadsBack` | gdisk/basicmbr.cc:170-269 | A saved boot record with a chain behind a slot of type 0x05, 0x0f or 0x85 reads back in the same slots, that slot dropped |
| `MbrChain.ReadsBackTwice` | gdisk/basicmbr.cc:227-238 | With two extended partitions both chains are read, the second one behind the first |
| `MbrChain.OtherSlotsStay` | gdisk/basicmbr.cc:227-238 | On every disk whose extended partitions start after sector 0, whatever their chains: slots of any other type stay as they are |
| `MbrLayout.RoundTripExact` | gdisk/basicmbr.cc:373-435 | Writing and reading back gives the same multiset of included partitions if and only if every logical starts at sector 2 or later |
| `MbrLayout.Overwritten` | gdisk/basicmbr.cc:407-432 | A logical that starts in sector 1 has its EBR written over the boot record and reads back as a primary |
| `MbrCases.SectorOneIsLegal` | gdisk/basicmbr.cc:929-958 | One logical in sector 1 passes every legality check and can be written |
| `MbrCases.WideSpanIsLegal` | gdisk/basicmbr.cc:1377-1378 | Two logicals more than 32 bits apart are legal, and their extended partition is too short |
| `MbrCases.CutIsLegal` | gdisk/basicmbr.cc:1377-1378 | Two logicals that span exactly 2^32 sectors with the first EBR are legal, and their extended partition has length 0 |
| `MbrCases.FitTest` | gdisk/basicmbr.cc:915-924 | On a table that passes the fit test a partition lies on the disk if and only if it does not end on the sector after the last one |
| `MbrCases.PastTheEndIsLegal` | gdisk/basicmbr.cc:915-924 | A legal table with a partition that ends past the disk |
| `MbrCases.LegalPadded` | gdisk/basicmbr.cc:949-958 | Empty entries do not change whether a table is legal |
| `MbrCases.RepairCanFail` | gdisk/basicmbr.cc:1293-1304 | A table that MakeItLegal leaves illegal: a primary on the sector a logical needs for its EBR |
| `MbrRepair.RepairKeeps` | gdisk/basicmbr.cc:1293-1304 | On every table: no overlaps, at most four primary slots, everything fits the disk and 32 bits, and entries that fit change only their role |
| `MbrRepair.GappedIsRepaired` | gdisk/basicmbr.cc:1293-1304 | If no partition that fits covers the sector before another one’s start, MakeItLegal makes the table legal, however partitions overlap and whatever their roles |
| `MbrRepair.StaysContiguous` | gdisk/basicmbr.cc:1273-1289 | Such a table keeps no primary among its logicals |
| `MbrRepair.OmitKeeps` | gdisk/basicmbr.cc:1202-1216 | Only overlapped entries are omitted, each for a larger one or an equal one earlier in the array, and no overlaps are left |
| `MbrRepair.TrimKeeps` | gdisk/basicmbr.cc:1257-1268 | Exactly four slots are left in use |
| `MbrRepair.EmptyEndsOnEbr` | gdisk/basicmbr.cc:818-821 | On a non-empty disk every empty entry counts as ending on the boot record |
| `MbrRepair.ThinnedPrimaries` | gdisk/basicmbr.cc:1202-1216 | Omitting entries needs no more primary slots |
| `MbrRepair.OnePrimaryLess` | gdisk/basicmbr.cc:1262-1265 | Omitting one primary frees one slot |
| `MbrObject.BasicMbrData.Arrange` | gdisk/basicmbr.cc:1367-1375 | The moves and the sort: an arranged permutation of the entries of a legal table |
| `MbrObject.BasicMbrData.AddExtended` | gdisk/basicmbr.cc:1376-1391 | There always is a spare slot among the first four, and the first one gets the extended partition |
| `MbrObject.BasicMbrData.FillEbr` | gdisk/basicmbr.cc:411-428 | One EBR: the logical at relative sector 1, and the link to the next EBR or none |
| `MbrObject.BasicMbrData.CountHits` | gdisk/basicmbr.cc:289-295 | How often the loop guard fires |
| `MbrObject.BasicMbrData.CheckLogical` | gdisk/basicmbr.cc:824-845 | Whether an entry can join the logicals |
| `MbrKept.AsideMeaning` | gdisk/basicmbr.cc:829-839 | A primary is in the way of an entry exactly if it starts between the entry and the first EBR |
| `MbrKept.JoinKeepsContiguous` | gdisk/basicmbr.cc:824-845 | An entry that can be logical and overlaps no primary joins the logicals without a primary getting among them |
| `MbrObject.FifthPrimary` | gdisk/basicmbr.cc:1340-1354 | With at most four primaries, one outside the first four slots means a slot without one |
| `MbrObject.SpareSlot` | gdisk/basicmbr.cc:1381-1387 | A legal table with logicals leaves one of the first four slots |
| `MbrObject.SparesData` | gdisk/basicmbr.cc:373-435 | No EBR of a legal table lies in an included partition, and the boot record only in one that starts on it |
| `MbrLayout.LogicalsAscend` | gdisk/basicmbr.cc:1375 | In an arranged legal table the logicals come in strictly ascending order |
| `MbrLayout.FirstOfLogicals` | gdisk/basicmbr.cc:1377 | The first of them starts the extended partition |
| `HashTable.Htab.FirstIndex` | src/gondar.cc:1271-1282 | The first slot: the hash modulo the size, never 0 |
| `HashTable.Htab.SdbmOf` | src/gondar.cc:1274-1275 | The running sum in 32-bit arithmetic |
| `HashTable.SdbmIs` | src/gondar.cc:1271-1275 | The hash is the string as a number in base 65599 modulo 2^32 |
| `HashTable.FirstIs` | src/gondar.cc:1276-1285 | The first slot is that modulo the size, and 1 when that is 0 |
| `HashTable.LandsIsProbe` | src/gondar.cc:1296-1305 | The j-th slot tried is j strides before the first one modulo the size, the stride being 1 plus the first slot modulo the size less 2 |
| `HashTable.ProbeResidue` | src/gondar.cc:1301-1305 | Stepping back with wrap-around is subtracting strides modulo the size |
| `HashTable.AllVisited` | src/gondar.cc:1307-1310 | A probe that came back to its start has met every slot, so the table is full |
| `NameCodec.DecodeOne` | gdisk/gptpart.cc:206-242 | One character from a position on, or broken bytes |
| `NameCodec.Put` | gdisk/gptpart.cc:243-261 | One character stored as one or two code units |
| `NameCodec.Append` | gdisk/gptpart.cc:121-139 | One character appended as GetDescription encodes it |
| `NameCodec.ShortNames` | gdisk/gptpart.cc:201-268 | A text of up to 36 characters of the basic plane comes back unchanged |
| `NameCodec.EmitsUtf8` | gdisk/gptpart.cc:121-139 | The bytes emitted for a text are its UTF-8 if and only if no character lies beyond the basic plane |
| `ImageWriter.ReadFile` | src/gondar.cc:2227-2235 | The next bytes of a file that reads full until its end; the rest of the buffer keeps what it held |
| `ImageWriter.Drive.WriteFile` | src/gondar.cc:2246-2253 | A write that is complete, or leaves anything within its target range |
| `ImageWriter.Drive.SetFilePointer` | src/gondar.cc:2254-2260 | A seek that may fail |
| `ImageWriter.AttemptAdded` | src/gondar.cc:2245-2267 | One more attempt keeps the log aligned and bounded |
| `Spaces.SpaceList.FindEarliest` | gdisk/gptcurses.cc:190-195 | A node with the least first sector |
| `Spaces.SpaceList.MoveEarliest` | gdisk/gptcurses.cc:190-201 | One round of the selection sort |
| `Spaces.SpaceList.WalkSpaces` | gdisk/gptcurses.cc:129-144 | The walk that adds gaps behind itself while the list is sorted anew |

## Left out

- User interfaces: wizard pages, menus, curses drawing, messages.
- Device calls on either platform; a disk is a sequence of sectors. GPT writes fail only by loss of power, between sectors; a sector is never half written, and a region placed past the end of the disk does not stop the regions after it. Reads past the end of a GPT disk give zeros and are reported.
- LoadPartitions, which chooses between MBR, BSD and GPT data, and conversions between them; hybrid MBRs and the protective MBR's contents (a boot sector is a parameter); the MBR side of Verify.
- Backup files, GUID and attribute editing, type codes: one-branch or constant data.
- Entry sizes other than 128 bytes; rounding a table up to whole sectors (the second argument of SetGPTSize) is modelled for the default table of ClearGPTData only, the other modelled callers turn it off.
- Big-endian hosts and CHS fields.
- 64-bit overflow of sector + 1 in the searches and of table placement in MoveMainTable: sector numbers there are unbounded, which matters only within one sector of 2^64.
- MBR sectors are boot records (four entries and a signature) rather than 512 bytes; boot code, disk signature and the gpt/hybrid state are not kept.
- GptObject.GptData.SortGPT: std::sort is any ordered rearrangement.
- MbrObject.BasicMbrData.SortMBR: the same, and asks that an entry to be sorted is empty if and only if it starts on sector 0, because the comparison is no order on others.
- GptObject.GptData.FindLastAvailable: asks that the entries do not take every 64-bit sector, since the search then never ends.
- GptObject.GptData.ClearDisk: up to the save; MakeEmptyPartition is the composition with it, on a new table, without the loading of the old one.
- MbrObject.BasicMbrData.CreateExtended: asks for tidy entries (included ones are not empty and of no extended type, and only primaries start on sector 0) and for an empty entry in the logical space for every non-primary among the first four; WriteMBRData asks for the same.
- MbrObject.BasicMbrData.ReadLogicalParts: asks that the walk ends, because it does not on every disk; a place visited before slot 0 is not recorded where the source writes outside its array.
- MbrKept.DroppedOnly: the reasons are necessary for being left out, not sufficient.
- MbrObject.BasicMbrData.MakeItLegal: the condition for a legal result is sufficient, not necessary, and the guarantees are for disks that are not empty.
- HashTable.Htab.Hash: allocation never fails, and the data pointer of an entry is not kept.
- ImageWriter.WriteDrive: the image reads full until its end and is always given; the sector size divides 2^32, as the aligned allocation demands; if rewinding fails and the drive was not at its start, nothing is claimed.
- NameCodec.SetName: without the ICU variant of the same functions.
- Network clients, update checks, metrics, libmicrohttpd examples and packaging.
