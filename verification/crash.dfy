/**
 * The fault injector: power cuts modelled as some USED blocks turning
 * CORRUPTED behind the file system's back, a crash scripted between the
 * journal entry and the data write, and a run of file creations that ends
 * at the first crash.  Every random draw of the simulator is a
 * nondeterministic choice here.
 */
module Crash {
  import opened Disk
  import opened Journaling

  /** The integer fields of `get_crash_statistics`; the two rates are not modelled. */
  datatype CrashStatistics = CrashStatistics(totalBlocks: nat, usedBlocks: nat, corruptedBlocks: nat,
                                             crashPointsRecorded: nat)

  /** The encoding of a string of ASCII characters, one byte per character. */
  function Ascii(s: string): (r: seq<byte>)
    ensures |r| == |s| && forall i :: 0 <= i < |s| && s[i] as int < 128 ==> r[i] as int == s[i] as int
  {
    seq(|s|, i requires 0 <= i < |s| => (s[i] as int % 256) as byte)
  }

  /** `s` written `n` times in a row. */
  function Repeat(s: seq<byte>, n: nat): seq<byte>
  {
    if n == 0 then [] else Repeat(s, n - 1) + s
  }

  /** `n` copies of `s` take n times its length. */
  lemma {:induction false} RepeatLength(s: seq<byte>, n: nat)
    ensures |Repeat(s, n)| == n * |s|
  {
    if n > 0 {
      RepeatLength(s, n - 1);
    }
  }

  /** The number a string of decimal digits denotes, most significant digit first. */
  function DigitsValue(s: string): nat
  {
    if |s| == 0 then 0
    else DigitsValue(s[..|s| - 1]) * 10 + (if '0' <= s[|s| - 1] <= '9' then (s[|s| - 1] - '0') as nat else 0)
  }

  /** The decimal digits of `n`, as `str(n)`. */
  function NatToString(n: nat): (r: string)
    ensures |r| > 0 && forall i :: 0 <= i < |r| ==> '0' <= r[i] <= '9'
    ensures DigitsValue(r) == n
    ensures |r| > 1 ==> r[0] != '0'
  {
    var digit := ['0' + (n % 10) as char];
    if n < 10 then digit else NatToString(n / 10) + digit
  }

  /** The payload of the scripted crash: one 66-byte sentence, 80 times. */
  function CriticalData(): seq<byte>
  {
    Repeat(Ascii("Critical operation data that might be interrupted by system crash "), 80)
  }

  /** The scripted crash announces a 5280-byte file. */
  lemma CriticalDataSize()
    ensures |CriticalData()| == 5280
  {
    RepeatLength(Ascii("Critical operation data that might be interrupted by system crash "), 80);
  }

  /** The name and data of operation `i` of a simulated run, for a drawn size. */
  function TestFileName(i: nat): string
  {
    "test_file_" + NatToString(i) + ".dat"
  }

  function TestFileData(i: nat, fileSize: nat): seq<byte>
  {
    Repeat(Ascii("Datos de prueba para archivo " + NatToString(i) + " "), fileSize / 30)
  }

  /**
   * How many blocks a crash sets out to corrupt, for `used` USED blocks and a
   * corruption level of `level` hundredths: five times the level's share of
   * the USED blocks, rounded down, kept between one and three.
   */
  function BlocksToCorrupt(used: nat, level: nat): (k: nat)
    ensures 1 <= k <= 3
  {
    var scaled := used * level * 5 / 100;
    if scaled < 1 then 1 else if scaled > 3 then 3 else scaled
  }

  /** At the run's level (2 hundredths) the crash grows by one block per ten USED blocks, from one to three. */
  lemma RunCrashSize(used: nat)
    ensures BlocksToCorrupt(used, 2) == if used < 20 then 1 else if used < 30 then 2 else 3
  {
    assert used * 2 * 5 == used * 10;
  }

  /** At the scripted crash's level (1 hundredth) it grows by one block per twenty USED blocks. */
  lemma ControlledCrashSize(used: nat)
    ensures BlocksToCorrupt(used, 1) == if used < 40 then 1 else if used < 60 then 2 else 3
  {
    assert used * 1 * 5 == used * 5;
  }

  /**
   * The blocks one crash at `level` hundredths may corrupt: none when no
   * block is USED, otherwise `BlocksToCorrupt` distinct USED blocks, or all
   * of them when there are fewer (listed in ascending order).
   */
  ghost predicate CrashSelection(st: seq<BlockStatus>, c: seq<int>, level: nat)
  {
    var used := Count(st, Used);
    && Ascending(c)
    && (forall k :: 0 <= k < |c| ==> 0 <= c[k] < |st| && st[c[k]] == Used)
    && |c| == (if used == 0 then 0 else if BlocksToCorrupt(used, level) < used then BlocksToCorrupt(used, level) else used)
  }

  /**
   * A crash moves exactly |c| blocks from USED to CORRUPTED: the FREE blocks
   * and the blocks already CORRUPTED stay as they were.
   */
  lemma CrashCounts(st: seq<BlockStatus>, c: seq<int>, level: nat)
    requires CrashSelection(st, c, level)
    ensures |c| <= 3
    ensures Count(Assign(st, c, Corrupted), Used) == Count(st, Used) - |c|
    ensures Count(Assign(st, c, Corrupted), Corrupted) == Count(st, Corrupted) + |c|
    ensures Count(Assign(st, c, Corrupted), Free) == Count(st, Free)
    ensures forall i :: 0 <= i < |st| && st[i] != Used ==> Assign(st, c, Corrupted)[i] == st[i]
  {
    AssignCounts(st, c, Used, Corrupted);
  }

  /** A crash leaves the inode table sound: it frees no block. */
  lemma CrashKeepsInodeTable(inodes: map<int, Inode>, next: int, blockSize: nat, st: seq<BlockStatus>, c: seq<int>,
                             level: nat)
    requires InodeTableOk(inodes, next, blockSize, st)
    requires CrashSelection(st, c, level)
    ensures InodeTableOk(inodes, next, blockSize, Assign(st, c, Corrupted))
  {
    InodeTableKeeps(inodes, next, blockSize, st, Assign(st, c, Corrupted));
  }

  /**
   * Recovery after the scripted crash: with nothing pending before and no
   * inode carrying the data's checksum, the interrupted CREATE is the one
   * pending operation, under the transaction id stamped on its entry.
   */
  lemma ControlledCrashRecovery(journal: seq<JournalEntry>, inodes: map<int, Inode>, filename: string,
                                dataSize: nat, dataSum: Digest, txId: int, sum: Payload -> Digest)
    requires PendingCreates(journal, Checksums(inodes)) == []
    requires dataSum !in Checksums(inodes)
    ensures var r := Recovery(true, Logged(journal, CreateIntent(filename, dataSize, dataSum, txId),
                                           txId + 1, inodes.Keys, sum), inodes);
      && r.pendingOperations == [PendingCreate(filename, txId + 1)]
      && r.errors == 1
  {
    InterruptedCreateIsPending(journal, Checksums(inodes), CreateIntent(filename, dataSize, dataSum, txId),
                               txId + 1, inodes.Keys, sum);
  }

  /** On a fresh journaling file system the scripted crash leaves one pending CREATE and nothing recovered. */
  lemma FreshControlledCrashRecovery(filename: string, dataSize: nat, dataSum: Digest, txId: int,
                                     sum: Payload -> Digest)
    ensures var r := Recovery(true, Logged([], CreateIntent(filename, dataSize, dataSum, txId),
                                           txId + 1, {}, sum), map[]);
      r == RecoveryStats(0, 1, [PendingCreate(filename, txId + 1)])
  {
    ControlledCrashRecovery([], map[], filename, dataSize, dataSum, txId, sum);
  }

  /** Every file of `inodes0` is still filed under its id, unchanged, and reads the same data. */
  ghost predicate FilesKept(inodes0: map<int, Inode>, blocks0: seq<seq<byte>>,
                            inodes1: map<int, Inode>, blocks1: seq<seq<byte>>)
  {
    forall id :: id in inodes0 ==>
      id in inodes1 && inodes1[id] == inodes0[id] && InodeData(blocks1, inodes1[id]) == InodeData(blocks0, inodes0[id])
  }

  /** Keeping the files is transitive. */
  lemma FilesKeptTrans(inodes0: map<int, Inode>, blocks0: seq<seq<byte>>, inodes1: map<int, Inode>,
                       blocks1: seq<seq<byte>>, inodes2: map<int, Inode>, blocks2: seq<seq<byte>>)
    requires FilesKept(inodes0, blocks0, inodes1, blocks1) && FilesKept(inodes1, blocks1, inodes2, blocks2)
    ensures FilesKept(inodes0, blocks0, inodes2, blocks2)
  {
  }

  /** Filing a value under a fresh key adds that key and one entry. */
  lemma MapGrows<K, V>(m: map<K, V>, k: K, v: V)
    requires k !in m
    ensures m[k := v].Keys == m.Keys + {k} && |m[k := v]| == |m| + 1
  {
  }

  /**
   * What one file creation does to the simulator's tallies: a success files
   * one inode under a fresh id and turns FREE blocks USED, a failure changes
   * neither; the CORRUPTED tally never moves.
   */
  lemma CreationAccount(st0: seq<BlockStatus>, st1: seq<BlockStatus>, n: int, success: bool,
                        inodes0: map<int, Inode>, inodes1: map<int, Inode>, next: int, inode: Inode)
    requires next !in inodes0
    requires success ==> st1 == Assign(st0, FirstFit(st0, n), Used) && inodes1 == inodes0[next := inode]
    requires !success ==> st1 == st0 && inodes1 == inodes0
    ensures inodes1.Keys == inodes0.Keys + (if success then {next} else {})
    ensures |inodes1| == |inodes0| + (if success then 1 else 0)
    ensures Count(st1, Corrupted) == Count(st0, Corrupted)
  {
    if success {
      FirstFitSpec(st0, n);
      AssignCounts(st0, FirstFit(st0, n), Free, Used);
      MapGrows(inodes0, next, inode);
    }
  }

  /** A file creation only ever appends to the journal. */
  lemma CreateFileLogExtends(journal: seq<JournalEntry>, enabled: bool, ok: bool, intent: Payload, commit: Payload,
                             stamp: int, before: set<int>, after: set<int>, sum: Payload -> Digest)
    requires intent.CreateIntent? && commit.InodeCommit?
    ensures journal <= CreateFileLog(journal, enabled, ok, intent, commit, stamp, before, after, sum)
  {
    CreateFileLogFacts(journal, enabled, ok, intent, commit, stamp, before, after, sum);
  }

  class CrashSimulator {
    const disk: VirtualDisk
    const fs: JournalingFileSystem

    /** The simulator drives the file system's own disk. */
    ghost predicate Valid()
      reads this, fs, disk, disk.blocks, disk.status
    {
      fs.disk == disk && fs.Valid()
    }

    constructor (disk: VirtualDisk, fs: JournalingFileSystem)
      requires fs.disk == disk && fs.Valid()
      ensures Valid() && this.disk == disk && this.fs == fs
    {
      this.disk := disk;
      this.fs := fs;
    }

    /**
     * A crash at a corruption level of `level` hundredths: picks
     * `BlocksToCorrupt` distinct USED blocks (all of them when there are
     * fewer) and marks each CORRUPTED through the disk; nothing changes when
     * no block is USED.  Contents, inodes and journal stay as they are.  The
     * picked blocks are answered so that callers can name them.
     */
    method SimulateCrash(level: nat) returns (corrupted: seq<int>)
      requires Valid()
      modifies disk.status
      ensures Valid()
      ensures CrashSelection(old(disk.status[..]), corrupted, level)
      ensures disk.status[..] == Assign(old(disk.status[..]), corrupted, Corrupted)
    {
      var used := IndicesWith(disk.status[..], Used);
      IndicesWithSpec(disk.status[..], Used);
      if used == [] {
        return [];
      }
      var blocksToCorrupt := BlocksToCorrupt(|used|, level);
      corrupted := Sample(used, if blocksToCorrupt < |used| then blocksToCorrupt else |used|);
      MarkAll(corrupted);
    }

    /** Marks each of the blocks `c` CORRUPTED through the disk, one after the other. */
    method MarkAll(c: seq<int>)
      requires Valid()
      modifies disk.status
      ensures Valid()
      ensures disk.status[..] == Assign(old(disk.status[..]), c, Corrupted)
    {
      for j := 0 to |c|
        invariant Valid()
        invariant disk.status[..] == Assign(old(disk.status[..]), c[..j], Corrupted)
      {
        disk.MarkCorrupted(c[j]);
        assert c[..j + 1] == c[..j] + [c[j]];
        assert disk.status[..] == Assign(old(disk.status[..]), c[..j + 1], Corrupted);
      }
      assert c[..|c|] == c;
    }

    /**
     * `random.sample(used, k)`: k distinct members of `used`, here kept in
     * the order they appear there; every k-subset is a possible outcome.
     */
    method Sample(used: seq<int>, k: nat) returns (chosen: seq<int>)
      requires Ascending(used) && k <= |used|
      ensures |chosen| == k && Ascending(chosen)
      ensures forall j :: 0 <= j < |chosen| ==> chosen[j] in used
    {
      chosen := [];
      ghost var picked: seq<nat> := [];
      var i := 0;
      while i < |used| && |chosen| < k
        invariant 0 <= i <= |used|
        invariant |chosen| <= k && k - |chosen| <= |used| - i
        invariant |picked| == |chosen|
        invariant forall j :: 0 <= j < |picked| ==> picked[j] < i && chosen[j] == used[picked[j]]
        invariant Ascending(chosen)
      {
        var take: bool :| true;
        if take || k - |chosen| == |used| - i {
          chosen := chosen + [used[i]];
          picked := picked + [i];
        }
        i := i + 1;
      }
    }

    /**
     * The scripted crash: opens a transaction, logs the CREATE intent of a
     * 5280-byte file when journaling is on, then crashes before any block is
     * allocated or written, and answers the transaction id.
     */
    method ControlledCrashDuringOperation(filename: string) returns (txId: int)
      requires Valid()
      modifies fs`currentTransactionId, fs`journal, disk.status
      ensures Valid()
      ensures txId == old(fs.currentTransactionId) && fs.currentTransactionId == txId + 1
      ensures fs.journal ==
        if fs.journalEnabled then
          Logged(old(fs.journal), CreateIntent(filename, |CriticalData()|, disk.calculateChecksum(CriticalData()), txId),
                 fs.currentTransactionId, disk.inodes.Keys, fs.journalChecksum)
        else old(fs.journal)
      ensures disk.inodes == old(disk.inodes) && disk.nextInodeId == old(disk.nextInodeId)
      ensures disk.blocks[..] == old(disk.blocks[..])
      ensures exists c :: CrashSelection(old(disk.status[..]), c, 1) && disk.status[..] == Assign(old(disk.status[..]), c, Corrupted)
    {
      ghost var st0 := disk.status[..];
      txId := LogCriticalIntent(filename);
      var c := SimulateCrash(1);
      assert CrashSelection(st0, c, 1);
    }

    /** The logging half of the scripted crash: the transaction and its intent. */
    method LogCriticalIntent(filename: string) returns (txId: int)
      requires Valid()
      modifies fs`currentTransactionId, fs`journal
      ensures Valid()
      ensures txId == old(fs.currentTransactionId) && fs.currentTransactionId == txId + 1
      ensures fs.journal ==
        if fs.journalEnabled then
          Logged(old(fs.journal), CreateIntent(filename, |CriticalData()|, disk.calculateChecksum(CriticalData()), txId),
                 fs.currentTransactionId, disk.inodes.Keys, fs.journalChecksum)
        else old(fs.journal)
    {
      txId := fs.BeginTransaction();
      var testData := CriticalData();
      if fs.journalEnabled {
        fs.JournalOperation(CreateIntent(filename, |testData|, disk.calculateChecksum(testData), txId));
      }
    }

    /**
     * Up to `operations` steps; each is a file creation (name and data from
     * the step number and a drawn size of 3000 to 7000) or an idle "write",
     * followed by a crash roll.  The first crash corrupts blocks and ends the
     * run.  Answers the number of files created and whether the run crashed.
     */
    method SimulateOperationSequence(operations: int) returns (successful: nat, crashed: bool)
      requires Valid()
      modifies fs, disk, disk.blocks, disk.status
      ensures Valid()
      ensures successful <= if operations > 0 then operations else 0
      ensures |disk.inodes| == |old(disk.inodes)| + successful
      ensures old(disk.inodes).Keys <= disk.inodes.Keys
      ensures FilesKept(old(disk.inodes), old(disk.blocks[..]), disk.inodes, disk.blocks[..])
      ensures old(fs.journal) <= fs.journal
      ensures Count(disk.status[..], Corrupted) <= Count(old(disk.status[..]), Corrupted) + 3
      ensures !crashed ==> Count(disk.status[..], Corrupted) == Count(old(disk.status[..]), Corrupted)
      // the final status table is a level-2 crash over a table with the original CORRUPTED tally
      ensures crashed ==> exists st, c :: Count(st, Corrupted) == Count(old(disk.status[..]), Corrupted)
                                          && CrashSelection(st, c, 2) && disk.status[..] == Assign(st, c, Corrupted)
    {
      successful, crashed := 0, false;
      var i := 0;
      while i < operations
        invariant Valid()
        invariant 0 <= i <= (if operations > 0 then operations else 0) && successful <= i
        invariant |disk.inodes| == |old(disk.inodes)| + successful
        invariant old(disk.inodes).Keys <= disk.inodes.Keys
        invariant FilesKept(old(disk.inodes), old(disk.blocks[..]), disk.inodes, disk.blocks[..])
        invariant old(fs.journal) <= fs.journal
        invariant Count(disk.status[..], Corrupted) == Count(old(disk.status[..]), Corrupted)
      {
        ghost var inodes, blocks := disk.inodes, disk.blocks[..];
        var created;
        created, crashed := RunStep(i);
        FilesKeptTrans(old(disk.inodes), old(disk.blocks[..]), inodes, blocks, disk.inodes, disk.blocks[..]);
        if created {
          successful := successful + 1;
        }
        if crashed {
          ghost var st, c :| Count(st, Corrupted) == Count(old(disk.status[..]), Corrupted)
                             && CrashSelection(st, c, 2) && disk.status[..] == Assign(st, c, Corrupted);
          CrashCounts(st, c, 2);
          return;
        }
        i := i + 1;
      }
    }

    /**
     * Step `i` of a run: a file creation or an idle "write", then the crash
     * roll.  Answers whether a file was created and whether the disk crashed.
     */
    method RunStep(i: nat) returns (created: bool, crashed: bool)
      requires Valid()
      modifies fs, disk, disk.blocks, disk.status
      ensures Valid()
      ensures |disk.inodes| == |old(disk.inodes)| + (if created then 1 else 0)
      ensures old(disk.inodes).Keys <= disk.inodes.Keys
      ensures FilesKept(old(disk.inodes), old(disk.blocks[..]), disk.inodes, disk.blocks[..])
      ensures old(fs.journal) <= fs.journal
      ensures !crashed ==> Count(disk.status[..], Corrupted) == Count(old(disk.status[..]), Corrupted)
      ensures crashed ==> exists st, c :: Count(st, Corrupted) == Count(old(disk.status[..]), Corrupted)
                                          && CrashSelection(st, c, 2) && disk.status[..] == Assign(st, c, Corrupted)
    {
      created := false;
      var create: bool :| true;
      if create {
        var filename := TestFileName(i);
        var fileSize :| 3000 <= fileSize <= 7000;
        var fileData := TestFileData(i, fileSize);
        created := CreateTestFile(filename, fileData);
      }
      ghost var st := disk.status[..];
      crashed := CrashRoll();
      if crashed {
        ghost var c :| CrashSelection(st, c, 2) && disk.status[..] == Assign(st, c, Corrupted);
        assert Count(st, Corrupted) == Count(old(disk.status[..]), Corrupted);
      }
    }

    /** The crash roll after each step of a run: either nothing happens, or a level-2 crash corrupts at most three blocks. */
    method CrashRoll() returns (crashed: bool)
      requires Valid()
      modifies disk.status
      ensures Valid()
      ensures !crashed ==> disk.status[..] == old(disk.status[..])
      ensures crashed ==> exists c :: CrashSelection(old(disk.status[..]), c, 2)
                                      && disk.status[..] == Assign(old(disk.status[..]), c, Corrupted)
      ensures Count(disk.status[..], Corrupted) <= Count(old(disk.status[..]), Corrupted) + 3
    {
      crashed :| true;
      if crashed {
        ghost var st := disk.status[..];
        var c := SimulateCrash(2);
        CrashCounts(st, c, 2);
        assert CrashSelection(st, c, 2) && disk.status[..] == Assign(st, c, Corrupted);
      }
    }

    /** One file creation of a simulated run, seen from the simulator: one more inode on success, no new corruption. */
    method CreateTestFile(filename: string, data: seq<byte>) returns (success: bool)
      requires Valid()
      modifies fs, disk, disk.blocks, disk.status
      ensures Valid()
      ensures disk.inodes.Keys == old(disk.inodes).Keys + (if success then {old(disk.nextInodeId)} else {})
      ensures |disk.inodes| == |old(disk.inodes)| + (if success then 1 else 0)
      ensures FilesKept(old(disk.inodes), old(disk.blocks[..]), disk.inodes, disk.blocks[..])
      ensures old(fs.journal) <= fs.journal
      ensures Count(disk.status[..], Corrupted) == Count(old(disk.status[..]), Corrupted)
    {
      ghost var st0 := disk.status[..];
      ghost var journal0 := fs.journal;
      ghost var next := disk.nextInodeId;
      ghost var inodes0 := disk.inodes;
      ghost var tx0 := fs.currentTransactionId;
      assert next !in inodes0;
      success := fs.CreateFile(filename, data);
      ghost var n := BlocksNeeded(|data|, disk.blockSize);
      CreationAccount(st0, disk.status[..], n, success, inodes0, disk.inodes, next,
                      Inode(next, |data|, FirstFit(st0, n), disk.calculateChecksum(data)));
      CreateFileLogExtends(journal0, fs.journalEnabled, success,
        CreateIntent(filename, |data|, disk.calculateChecksum(data), tx0),
        InodeCommit(next, filename, FirstFit(st0, n), tx0),
        fs.currentTransactionId, inodes0.Keys, disk.inodes.Keys, fs.journalChecksum);
    }

    /** Block totals of the disk as the simulator reports them; no crash point is ever recorded. */
    function GetCrashStatistics(): (r: CrashStatistics)
      requires Valid()
      reads this, fs, disk, disk.blocks, disk.status
      ensures r.totalBlocks == disk.totalBlocks
      ensures r.usedBlocks == Count(disk.status[..], Used) && r.corruptedBlocks == Count(disk.status[..], Corrupted)
      ensures r.usedBlocks + r.corruptedBlocks <= r.totalBlocks
      ensures r.crashPointsRecorded == 0
    {
      CountPartition(disk.status[..]);
      CrashStatistics(disk.totalBlocks, Count(disk.status[..], Used), Count(disk.status[..], Corrupted), 0)
    }
  }
}
