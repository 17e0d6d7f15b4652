# Journaling file-system simulator, modelled in Dafny

This project models the core of a teaching simulator for journaling file
systems. The simulator has four parts:

- **Virtual disk** (`Disk`, disk.dfy). A fixed array of fixed-size block
  buffers, a parallel status table (FREE / USED / CORRUPTED), the inode table
  and the inode-id counter. Writing a block pads or truncates the data to one
  block and marks the block USED. Marking a block CORRUPTED changes only its
  status, never its bytes. Free blocks are handed out first-fit.
- **Journaling file system** (`Journaling`, journaling.dfy). It keeps a
  transaction counter and an append-only journal that gets an automatic
  CHECKPOINT entry every fifth entry. `create_file` has two phases. First it
  logs the CREATE intent. Then it allocates blocks, writes the data, commits
  the inode and logs a METADATA entry. `read_file` joins an inode's blocks.
  Recovery scans the journal for CREATE intents whose data checksum no
  committed inode carries.
- **Integrity checker** (`Integrity`, integrity.dfy). A read-only pass that
  tallies the block statuses and classifies every inode: intact, checksum
  mismatch, unreadable, or sitting on corrupted blocks (partially
  recoverable or not). It also compares two such reports.
- **Crash simulator** (`Crash`, crash.dfy). A power cut turns a few USED
  blocks CORRUPTED. A scripted crash falls between the journal entry and the
  data write. A run of file creations ends at the first crash.

The disk, the file system and the simulator are classes whose methods change
their fields in place; the checker is a class that only reads the disk. Each method is proved against functions
on values: `FirstFit` for allocation, `Logged` and `CreateFileLog` for the
journal, `InodeData` for reading a file, `Recovery` for the recovery scan,
`Classify` for a verdict, `Assign` for a status update and `CrashSelection`
for a crash. Lemmas prove what the simulator promises about those functions.

Conventions:

- Digests are strings.
- SHA-256 of the data and SHA-256 of a journal payload's JSON are
  function-valued fields given to the constructors. Only the fact that they
  are deterministic is used.
- Every random draw of the simulator is a nondeterministic choice: the
  operation kind, the file size, the crash roll and the sample of blocks.
- The corruption level is a whole number of hundredths (2 for a run, 1 for
  the scripted crash).
- Byte strings are `seq<byte>`; the two literal payloads are ASCII text.

## Model

| member | source | states |
|---|---|---|
| Disk.Padded | src/virtual_disk.py:40-43 | a written block is exactly one block long: the data's bytes first, then zeros |
| Disk.BlocksNeeded | src/journaling_fs.py:74 | a file needs no block exactly when it is empty |
| Disk.BlocksNeededBounds | src/journaling_fs.py:74 | the blocks cover the file, and the last one holds at least one of its bytes |
| Disk.Slice | src/journaling_fs.py:82-84 | a slice clamps both ends to the data and holds the data's bytes from `lo` on |
| Disk.CountPartition | src/virtual_disk.py:72-80 | the free, used and corrupted tallies add up to the number of blocks |
| Disk.IndicesWithSpec | src/virtual_disk.py:58-66 | the scan lists exactly the blocks with a status, ascending, one per counted block |
| Disk.IndicesWithPrefix | src/virtual_disk.py:61-65 | stopping the scan early yields a prefix of the full list |
| Disk.FirstFitSpec | src/virtual_disk.py:58-66 | the allocation is empty iff fewer free blocks than asked (or none asked); otherwise exactly `count` distinct FREE blocks, ascending, and no lower FREE block is skipped |
| Disk.AllocationSucceeds | src/journaling_fs.py:74-78 | allocation for a file succeeds iff the file is non-empty and enough blocks are FREE |
| Disk.CountStep | src/virtual_disk.py:75-77 | extending a prefix by one block adds one to that block's status tally and nothing to the others |
| Disk.CountUpdate | src/virtual_disk.py:53-56 | changing one status moves one block from its old tally to its new one |
| Disk.AssignCounts | src/crash_simulator.py:84-85 | moving distinct blocks of one status to another shifts exactly that many between the two tallies and leaves the third alone |
| Disk.ChunksReassemble | src/journaling_fs.py:81-85 | joining the padded chunks gives whole blocks that begin with the data itself |
| Disk.ReadBackWritten | src/journaling_fs.py:124-132 | an inode over blocks that hold the padded chunks of its data reads back as exactly that data (write then read round trip) |
| Disk.InodeTableKeeps | src/virtual_disk.py:53-56 | a status change that frees no block keeps every inode on non-FREE, in-range blocks |
| Disk.InodeTableCommit | src/journaling_fs.py:88-97 | the next inode id is unused, and committing an inode there keeps the inode table sound |
| Disk.VirtualDisk.constructor | src/virtual_disk.py:27-33 | block size in bytes, whole blocks of the device, all zeroed and FREE, no inodes, first id 1 |
| Disk.VirtualDisk.WriteBlock | src/virtual_disk.py:35-45 | fails iff the block is out of range; otherwise exactly that block changes, to the padded data, and becomes USED |
| Disk.VirtualDisk.ReadBlock | src/virtual_disk.py:47-51 | the whole buffer of an in-range block, whatever its status; nothing out of range |
| Disk.VirtualDisk.MarkCorrupted | src/virtual_disk.py:53-56 | only that block's status changes, to CORRUPTED; out of range nothing changes |
| Disk.VirtualDisk.AddInode | src/journaling_fs.py:96-97 | the inode is filed under the old counter and the counter moves up by one |
| Disk.VirtualDisk.GetFreeBlocks | src/virtual_disk.py:58-66 | the first-fit allocation `FirstFit` of the current status table |
| Disk.VirtualDisk.GetDiskStats | src/virtual_disk.py:72-80 | each tally is the count of its status, the three add up to the total, one inode count per table entry |
| Journaling.LoggedShape | src/journaling_fs.py:41-57 | logging keeps earlier entries, appends the stamped entry, and adds a checkpoint naming the live inodes exactly when the length reaches a multiple of 5 |
| Journaling.LoggedKeepsCadence | src/journaling_fs.py:55-57 | checkpoints stay at positions 5, 10, 15, ... and the journal never rests at a multiple of 5 |
| Journaling.LoggedKeepsOrder | src/journaling_fs.py:46-53 | entry transaction ids stay non-decreasing and never pass the counter |
| Journaling.LoggedCounts | src/journaling_fs.py:46-57 | logging adds one entry of the payload's kind, and one CHECKPOINT when one is due |
| Journaling.CountKindAppend | src/journaling_fs.py:208-211 | per-kind tallies of a concatenation add up |
| Journaling.KindPartition | src/journaling_fs.py:206-218 | the per-kind tallies add up to the journal length |
| Journaling.PendingBound | src/journaling_fs.py:156-174 | there are never more pending operations than CREATE entries |
| Journaling.PendingAppend | src/journaling_fs.py:156-174 | the pending operations of a concatenation are those of each part, in order |
| Journaling.RecoveryCounts | src/journaling_fs.py:143-180 | errors equals the number of pending operations; recovered plus errors equals the journal length, recovered is never negative; all zero with journaling off |
| Journaling.CommittedCreatesRecover | src/journaling_fs.py:156-174 | when every CREATE's data checksum is carried by a committed inode, nothing is pending |
| Journaling.InterruptedCreateIsPending | src/journaling_fs.py:156-174 | a CREATE logged for data no inode carries, on top of a journal with nothing pending, is then the one pending operation, with its file name and envelope transaction id |
| Journaling.CommittedGrows | src/journaling_fs.py:161-166 | adding an inode keeps every CREATE that was committed committed |
| Journaling.InodeDataFrame | src/journaling_fs.py:121-132 | reading a file depends only on the buffers of its own blocks |
| Journaling.CreateFileLogFacts | src/journaling_fs.py:59-106 | one `create_file` call keeps the old journal as a prefix, puts its CREATE entry right after it, adds exactly one CREATE entry and keeps the checkpoint cadence; with journaling off the journal is unchanged |
| Journaling.CreateFileKeepsCommitted | src/journaling_fs.py:59-106 | after a successful creation, a journal whose every CREATE was committed still has that property, so recovery finds nothing pending |
| Journaling.UntouchedFilesRead | src/journaling_fs.py:75-85 | writing only blocks that were FREE leaves every committed file reading as before |
| Journaling.JournalingFileSystem.constructor | src/journaling_fs.py:28-33 | empty journal, counter at 1, the given disk and journaling switch |
| Journaling.JournalingFileSystem.BeginTransaction | src/journaling_fs.py:35-39 | answers the counter and advances it by one |
| Journaling.JournalingFileSystem.JournalOperation | src/journaling_fs.py:41-57 | with journaling on, the journal becomes `Logged` of the old one, stamped with the current counter; with journaling off it is unchanged |
| Journaling.JournalingFileSystem.CreateCheckpoint | src/journaling_fs.py:182-199 | appends one checkpoint with the live inode ids, the journal length so far and the current counter |
| Journaling.JournalingFileSystem.CreateFile | src/journaling_fs.py:59-113 | succeeds iff the data is non-empty and enough blocks are FREE. Counter +1; journal as `CreateFileLog`. On failure no inode, block or status changes. On success: a new inode over the first-fit blocks, which hold the padded chunks and become USED; no other block changes; the new file reads back as the data; every old file reads as before |
| Journaling.JournalingFileSystem.StoreFile | src/journaling_fs.py:74-97 | the allocation, write and commit phases: the same disk facts as `CreateFile`, keyed on the first-fit allocation being non-empty |
| Journaling.JournalingFileSystem.WriteChunks | src/journaling_fs.py:81-85 | chunk k goes zero-padded to block k of the allocation, those blocks become USED, and no other block changes |
| Journaling.JournalingFileSystem.ReadFile | src/journaling_fs.py:115-141 | nothing for an unknown inode; otherwise `InodeData`: its blocks joined and cut to its size |
| Journaling.JournalingFileSystem.RecoverFromJournal | src/journaling_fs.py:143-180 | the report is `Recovery` of the journal and the inode table, with errors equal to the pending count and recovered plus errors equal to the journal length |
| Journaling.JournalingFileSystem.GetJournalStats | src/journaling_fs.py:206-218 | total entries, switch and counter; a kind appears in the tally iff it occurs, with its exact count |
| Integrity.Abbrev | src/integrity_checker.py:72-73 | the first 16 characters of a digest followed by "..." |
| Integrity.CorruptedCount | src/integrity_checker.py:87-88 | never more corrupted references than references |
| Integrity.CorruptedCountFull | src/integrity_checker.py:87-94 | every block corrupted iff the count equals the number of blocks (so not recoverable) |
| Integrity.CorruptedCountZero | src/integrity_checker.py:87-94 | no block corrupted iff the count is zero |
| Integrity.NeverUnableToRead | src/integrity_checker.py:77-83 | an UNABLE_TO_READ verdict cannot arise when the inode's blocks are in range |
| Integrity.ClassifySpec | src/integrity_checker.py:47-95 | intact iff all blocks are accessible and the data matches its checksum; a corrupted-blocks verdict iff some block is CORRUPTED, with a positive count, the block total, and recoverable iff some block is not corrupted |
| Integrity.CorruptionHitsOnlyItsFiles | src/integrity_checker.py:48-52 | corrupting blocks keeps an intact file intact iff none of its blocks is among them |
| Integrity.IdSetSnoc | src/integrity_checker.py:61-89 | appending a record adds its inode id to the ids the list names |
| Integrity.CompareFsStates | src/integrity_checker.py:115-130 | blocks lost is USED before minus USED after; new corruptions is the CORRUPTED tally after; files recovered and lost are the intact and corrupted files after |
| Integrity.CompareAcrossCrash | src/integrity_checker.py:115-130 | across a crash of |c| USED blocks, blocks lost is exactly |c|; the corruption count is the earlier corrupted blocks plus |c|, as the field counts all corrupted blocks |
| Integrity.IntegrityChecker.constructor | src/integrity_checker.py:9-10 | the checker reads the given disk |
| Integrity.IntegrityChecker.ReadInodeData | src/integrity_checker.py:100-113 | `InodeData` of the inode: its blocks joined and cut to its size, nothing when one is out of range |
| Integrity.IntegrityChecker.CheckInode | src/integrity_checker.py:44-95 | the verdict is `Classify` of the inode on the current disk, and never UNABLE_TO_READ |
| Integrity.IntegrityChecker.ComprehensiveIntegrityCheck | src/integrity_checker.py:12-98 | block tallies are the status counts and add up to the total; the summary names exactly the statuses present, with their counts; every inode is checked once; intact verdicts go to the recoverable list, all others to the corrupted list; ok plus failed equals checked; the two lists name every inode |
| Integrity.SummaryStep | src/integrity_checker.py:32-34 | adding one status to the per-status summary of a prefix gives the summary of the longer prefix |
| Integrity.IntegrityChecker.TallyBlocks | src/integrity_checker.py:31-41 | one count per status and the summary of the statuses present |
| Integrity.IntegrityChecker.CheckInodes | src/integrity_checker.py:43-95 | one verdict per inode: ok and failed are the list lengths and add up to the number of inodes, and the lists together name every inode |
| Integrity.IntegrityChecker.FileVerdict | src/integrity_checker.py:54-95 | the verdict on one inode joins the recoverable list iff it is intact, otherwise the corrupted list |
| Crash.Ascii | src/crash_simulator.py:36 | one byte per ASCII character, with the character's code |
| Crash.RepeatLength | src/crash_simulator.py:36 | n copies of a byte string are n times as long |
| Crash.NatToString | src/crash_simulator.py:33 | the decimal rendering of a step number is a non-empty string of digits that denotes that number |
| Crash.CriticalDataSize | src/crash_simulator.py:113 | the scripted crash's payload is 5280 bytes |
| Crash.BlocksToCorrupt | src/crash_simulator.py:77 | a crash sets out to corrupt between one and three blocks |
| Crash.RunCrashSize | src/crash_simulator.py:49 | at the run's level: one block below 20 USED blocks, two below 30, three from 30 on |
| Crash.ControlledCrashSize | src/crash_simulator.py:130 | at the scripted crash's level: one block below 40 USED blocks, two below 60, three from 60 on |
| Crash.CrashCounts | src/crash_simulator.py:82-85 | a crash moves exactly its (at most three) blocks from USED to CORRUPTED; FREE and already-corrupted blocks are untouched |
| Crash.CrashKeepsInodeTable | src/crash_simulator.py:84-85 | a crash keeps the inode table sound |
| Crash.ControlledCrashRecovery | src/crash_simulator.py:111-125 | after the scripted crash on a journal with nothing pending, recovery reports exactly one pending CREATE for the file, under the advanced transaction id, and one error |
| Crash.FreshControlledCrashRecovery | src/crash_simulator.py:111-125 | on a fresh journaling file system recovery after the scripted crash finds nothing recovered, one error and the one pending CREATE |
| Crash.CreationAccount | src/journaling_fs.py:59-106 | a creation adds one inode under the fresh id and turns FREE blocks USED on success, changes nothing on failure, and never moves the CORRUPTED tally |
| Crash.CreateFileLogExtends | src/journaling_fs.py:59-106 | whatever a creation logs is appended: the old journal stays a prefix of the new one |
| Crash.CrashSimulator.constructor | src/crash_simulator.py:13-16 | the simulator drives the file system's own disk |
| Crash.CrashSimulator.SimulateCrash | src/crash_simulator.py:62-102 | with no USED block nothing changes; otherwise `BlocksToCorrupt` distinct USED blocks, or all of them if fewer, become CORRUPTED and no other status changes |
| Crash.CrashSimulator.MarkAll | src/crash_simulator.py:84-85 | exactly the listed blocks become CORRUPTED, one after the other, and no other status changes |
| Crash.CrashSimulator.Sample | src/crash_simulator.py:82 | exactly k distinct members of the USED list |
| Crash.CrashSimulator.ControlledCrashDuringOperation | src/crash_simulator.py:104-133 | answers the old counter and advances it by one; logs the CREATE intent of the 5280-byte payload iff journaling is on; adds no inode and writes no block; then one crash at level 1 |
| Crash.CrashSimulator.LogCriticalIntent | src/crash_simulator.py:110-124 | answers the old counter and advances it by one; appends the CREATE intent of the 5280-byte payload iff journaling is on |
| Crash.CrashSimulator.CrashRoll | src/crash_simulator.py:46-50 | either no status changes, or one level-2 crash selection of USED blocks becomes CORRUPTED, which adds at most three CORRUPTED blocks |
| Crash.CrashSimulator.RunStep | src/crash_simulator.py:28-50 | one step of a run: at most one file is created; every earlier file keeps its inode and reads the same data; the old journal stays a prefix; without a crash no block is corrupted, with one the final status table is a single level-2 crash selection over a table with the step's original corrupted tally |
| Crash.CrashSimulator.SimulateOperationSequence | src/crash_simulator.py:18-60 | at most `operations` files are created, one inode each; every earlier file keeps its inode and reads the same data; the old journal stays a prefix; without a crash no block is corrupted; with one, the final status table is a single level-2 crash selection over a table with the original corrupted tally, so at most three new corrupted blocks |
| Crash.CrashSimulator.CreateTestFile | src/crash_simulator.py:32-43 | a creation adds exactly the next inode id on success and nothing on failure; every earlier file keeps its inode and reads the same data; the journal keeps its prefix and nothing is corrupted |
| Crash.CrashSimulator.GetCrashStatistics | src/crash_simulator.py:135-148 | the total, USED and CORRUPTED block counts of the disk; used plus corrupted never exceeds the total, and no crash point is ever recorded |

## Left out

- Timestamps, `time.sleep`, and every `print`, including `print_detailed_report` and the warning lines of `read_file`, are not modelled. Neither are the floating-point rates and percentages (`recovery_rate`, `data_integrity_score`, `corruption_rate_*`). They are time, console output or floating point, and have no bearing on the state.
- `list_files` is not modelled: it only formats the inode table with a clock-formatted creation time.
- The imports of `Optional` and `hashlib` are missing at src/journaling_fs.py:1-6. As written, the module would fail to load. The model follows the evident intent: an optional result and SHA-256 journal checksums.
- SHA-256 and the JSON serialisation of journal payloads are not modelled. They are function-valued fields; only the fact that equal inputs give equal digests is used.
- Timestamps in inodes and journal entries are not modelled. A checkpoint's `active_inodes` list is the set of live inode ids; its order is not modelled.
- Default arguments are not modelled; every caller passes every value. The source's defaults are `size_mb=10` and `block_size_kb=4` for the disk, `journal_enabled=True` for the file system, `corruption_level=0.02` for a crash, `crash_probability=0.3` for a run, and `filename="critical_operation.dat"` for the scripted crash.
- The WRITE and DELETE entry kinds are declared, but no operation in the core logs them.
- The generic `except Exception` paths are not modelled. The one exception the core raises, an empty allocation in `create_file`, is modelled as the failure result. The model has no other failure.
- Disk.VirtualDisk.constructor: requires a positive block size. A block size of 0 makes the source divide by zero. Negative sizes are not modelled.
- Crash.CrashSimulator.constructor: requires that the simulator's disk is the file system's disk, as at every call site in the repository. Separate disks are not modelled.
- Crash.CrashSimulator.SimulateCrash: the corruption level is a whole number of hundredths. The float product `len(used) * level * 5` is rounded down as an exact rational; float rounding for other levels is not modelled. The affected-inode count (src/crash_simulator.py:95-102) is only printed and is not modelled. The method also answers the blocks it corrupted, which the source does not return.
- Crash.CrashSimulator.Sample: the sample is kept in ascending order. `random.sample` answers it in random order. Marking blocks corrupted does not depend on order, so the resulting status table is the same.
- Crash.CrashSimulator.SimulateOperationSequence: the crash probability is not a parameter, since every roll is a nondeterministic choice. The contract bounds the outcome rather than naming each step's file. The run ending at the first crash is what the method does, but the contract does not pin it: it describes the final state only, so it does not rule out a creation, or a journal entry, after the crash.
- Crash.CrashSimulator.GetCrashStatistics: `crash_points` is never appended to anywhere, so the count of crash points is always 0. The two rates are not modelled.
- Integrity.IntegrityChecker.ComprehensiveIntegrityCheck: the inodes are visited in some order. The source uses dictionary order, i.e. ascending inode id. The lists are specified by the verdicts they hold and the inode ids they name, not by their order.
- Integrity.IntegrityChecker.CheckInodes: visits the inodes in some order, as above.
- Integrity.IntegrityChecker.CheckInode: the disk invariant keeps every inode block in 0..total_blocks-1, so out-of-range blocks are not modelled. In the source such a block would not always fail: a block b with -total_blocks <= b < 0 reads the status of block total_blocks+b by Python's negative indexing, and only b >= total_blocks or b < -total_blocks raise an index error while counting corrupted blocks.
- Integrity.CompareFsStates: only the four integer fields are modelled.
