/**
 * The journaling file system: a transaction counter, an append-only journal
 * with an automatic CHECKPOINT every fifth entry, the two-phase
 * `create_file` (log the intent, then allocate, write and commit the inode,
 * then log the metadata), `read_file`, and the checksum-based recovery scan.
 */
module Journaling {
  import opened Wrappers
  import opened Disk

  /** Entries between automatic checkpoints (`checkpoint_interval`). */
  const CHECKPOINT_INTERVAL: nat := 5

  /** The journal entry kinds; WRITE and DELETE exist but nothing logs them. */
  datatype EntryType = Create | Write | Delete | Metadata | Checkpoint

  /** The per-kind payload of a journal entry (its timestamp is not modelled). */
  datatype Payload =
    | CreateIntent(filename: string, size: nat, dataChecksum: Digest, transactionId: int)
    | InodeCommit(inodeId: int, filename: string, blocks: seq<int>, transactionId: int)
    | CheckpointMark(activeInodes: set<int>, totalOperations: nat, transactionId: int)
  {
    function Kind(): EntryType
    {
      match this
      case CreateIntent(_, _, _, _) => Create
      case InodeCommit(_, _, _, _) => Metadata
      case CheckpointMark(_, _, _) => Checkpoint
    }
  }

  /** The shared envelope: the stamping transaction id, the payload and its checksum. */
  datatype JournalEntry = JournalEntry(transactionId: int, payload: Payload, checksum: Digest)

  datatype PendingOperation = PendingCreate(filename: string, transactionId: int)

  datatype RecoveryStats = RecoveryStats(recovered: int, errors: nat, pendingOperations: seq<PendingOperation>)

  datatype JournalStats = JournalStats(
    totalEntries: nat, entryTypes: map<EntryType, nat>, journalEnabled: bool, currentTransaction: int)

  // ---------------------------------------------------------------------------
  // The journal as a value
  // ---------------------------------------------------------------------------

  function CountKind(journal: seq<JournalEntry>, t: EntryType): (n: nat)
    ensures n <= |journal|
  {
    if journal == [] then 0
    else CountKind(journal[..|journal| - 1], t) + (if journal[|journal| - 1].payload.Kind() == t then 1 else 0)
  }

  /**
   * The journal after `journal_operation(p)` with journaling on: one entry
   * stamped `txId`, and, when that brings the length to a multiple of the
   * interval, a checkpoint naming the live inode ids and that length.
   */
  function Logged(journal: seq<JournalEntry>, p: Payload, txId: int, live: set<int>, sum: Payload -> Digest): seq<JournalEntry>
  {
    var j := journal + [JournalEntry(txId, p, sum(p))];
    if |j| % CHECKPOINT_INTERVAL == 0 then
      var mark := CheckpointMark(live, |j|, txId);
      j + [JournalEntry(txId, mark, sum(mark))]
    else
      j
  }

  /** Checkpoints sit exactly at positions 5, 10, 15, ...; the journal never rests at a multiple of 5. */
  ghost predicate CheckpointCadence(journal: seq<JournalEntry>)
  {
    && (|journal| == 0 || |journal| % CHECKPOINT_INTERVAL != 0)
    && forall k :: 0 <= k < |journal| ==>
         (journal[k].payload.CheckpointMark? <==> 0 < k && k % CHECKPOINT_INTERVAL == 0)
  }

  /** Envelope transaction ids never decrease along the journal and never pass the counter. */
  ghost predicate TxOrdered(journal: seq<JournalEntry>, current: int)
  {
    && (forall a, b :: 0 <= a < b < |journal| ==> journal[a].transactionId <= journal[b].transactionId)
    && (forall k :: 0 <= k < |journal| ==> journal[k].transactionId <= current)
  }

  /** Logging keeps every earlier entry, appends the entry, and a checkpoint exactly when the new length is a multiple of 5. */
  lemma LoggedShape(journal: seq<JournalEntry>, p: Payload, txId: int, live: set<int>, sum: Payload -> Digest)
    ensures var j := Logged(journal, p, txId, live, sum);
      && j[..|journal|] == journal
      && |j| == |journal| + (if (|journal| + 1) % CHECKPOINT_INTERVAL == 0 then 2 else 1)
      && j[|journal|] == JournalEntry(txId, p, sum(p))
      && (|j| == |journal| + 2 ==>
            j[|journal| + 1].payload == CheckpointMark(live, |journal| + 1, txId))
  {
  }

  /** Logging any non-checkpoint entry keeps the checkpoint cadence. */
  lemma LoggedKeepsCadence(journal: seq<JournalEntry>, p: Payload, txId: int, live: set<int>, sum: Payload -> Digest)
    requires CheckpointCadence(journal)
    requires !p.CheckpointMark?
    ensures CheckpointCadence(Logged(journal, p, txId, live, sum))
  {
    var j := Logged(journal, p, txId, live, sum);
    var n := |journal|;
    assert j[n].payload == p;
    forall k | 0 <= k < |j|
      ensures j[k].payload.CheckpointMark? <==> 0 < k && k % CHECKPOINT_INTERVAL == 0
    {
      if k < n {
        assert j[k] == journal[k];
      }
    }
  }

  /** Logging stamped with a counter no smaller than the journal's ids keeps them ordered. */
  lemma LoggedKeepsOrder(journal: seq<JournalEntry>, p: Payload, txId: int, live: set<int>, sum: Payload -> Digest, current: int)
    requires TxOrdered(journal, txId)
    requires txId <= current
    ensures TxOrdered(Logged(journal, p, txId, live, sum), current)
  {
    var j := Logged(journal, p, txId, live, sum);
    forall a, b | 0 <= a < b < |j|
      ensures j[a].transactionId <= j[b].transactionId
    {
      if b < |journal| {
        assert j[a] == journal[a] && j[b] == journal[b];
      } else if a < |journal| {
        assert j[a] == journal[a];
      }
    }
    forall k | 0 <= k < |j|
      ensures j[k].transactionId <= current
    {
      if k < |journal| {
        assert j[k] == journal[k];
      }
    }
  }

  lemma {:induction false} CountKindAppend(a: seq<JournalEntry>, b: seq<JournalEntry>, t: EntryType)
    ensures CountKind(a + b, t) == CountKind(a, t) + CountKind(b, t)
    decreases |b|
  {
    if b != [] {
      var n := |b| - 1;
      assert (a + b)[..|a + b| - 1] == a + b[..n];
      CountKindAppend(a, b[..n], t);
    } else {
      assert a + b == a;
    }
  }

  /** Logging adds one entry of the payload's kind, plus one checkpoint when one is due. */
  lemma LoggedCounts(journal: seq<JournalEntry>, p: Payload, txId: int, live: set<int>, sum: Payload -> Digest, t: EntryType)
    ensures CountKind(Logged(journal, p, txId, live, sum), t) ==
      CountKind(journal, t) + (if p.Kind() == t then 1 else 0)
      + (if (|journal| + 1) % CHECKPOINT_INTERVAL == 0 && t == Checkpoint then 1 else 0)
  {
    var e := JournalEntry(txId, p, sum(p));
    CountKindAppend(journal, [e], t);
    assert CountKind([e], t) == (if p.Kind() == t then 1 else 0) by {
      assert [e][..0] == [];
    }
    var j := journal + [e];
    if |j| % CHECKPOINT_INTERVAL == 0 {
      var mark := CheckpointMark(live, |j|, txId);
      var c := JournalEntry(txId, mark, sum(mark));
      CountKindAppend(j, [c], t);
      assert [c][..0] == [];
    }
  }

  /** Every entry kind is counted once: the per-kind tallies add up to the journal length. */
  lemma {:induction false} KindPartition(journal: seq<JournalEntry>)
    ensures CountKind(journal, Create) + CountKind(journal, Write) + CountKind(journal, Delete)
      + CountKind(journal, Metadata) + CountKind(journal, Checkpoint) == |journal|
  {
    if journal != [] {
      KindPartition(journal[..|journal| - 1]);
    }
  }

  // ---------------------------------------------------------------------------
  // Recovery as a value
  // ---------------------------------------------------------------------------

  /** The checksums of the committed inodes. */
  function Checksums(inodes: map<int, Inode>): set<Digest>
  {
    set id | id in inodes :: inodes[id].checksum
  }

  /** The CREATE entries whose data checksum no committed inode carries, in journal order. */
  function PendingCreates(journal: seq<JournalEntry>, committed: set<Digest>): seq<PendingOperation>
  {
    if journal == [] then []
    else
      var e := journal[|journal| - 1];
      PendingCreates(journal[..|journal| - 1], committed)
      + (if e.payload.CreateIntent? && e.payload.dataChecksum !in committed
         then [PendingCreate(e.payload.filename, e.transactionId)] else [])
  }

  /** What `recover_from_journal` reports. */
  function Recovery(enabled: bool, journal: seq<JournalEntry>, inodes: map<int, Inode>): RecoveryStats
  {
    if !enabled then RecoveryStats(0, 0, [])
    else
      var pending := PendingCreates(journal, Checksums(inodes));
      RecoveryStats(|journal| - |pending|, |pending|, pending)
  }

  /** Every CREATE entry's data checksum is carried by some committed inode. */
  ghost predicate AllCreatesCommitted(journal: seq<JournalEntry>, inodes: map<int, Inode>)
  {
    forall k :: 0 <= k < |journal| && journal[k].payload.CreateIntent? ==>
      journal[k].payload.dataChecksum in Checksums(inodes)
  }

  /** There are at most as many pending operations as CREATE entries. */
  lemma {:induction false} PendingBound(journal: seq<JournalEntry>, committed: set<Digest>)
    ensures |PendingCreates(journal, committed)| <= CountKind(journal, Create)
  {
    if journal != [] {
      PendingBound(journal[..|journal| - 1], committed);
    }
  }

  lemma {:induction false} PendingAppend(a: seq<JournalEntry>, b: seq<JournalEntry>, committed: set<Digest>)
    ensures PendingCreates(a + b, committed) == PendingCreates(a, committed) + PendingCreates(b, committed)
    decreases |b|
  {
    if b != [] {
      var n := |b| - 1;
      assert (a + b)[..|a + b| - 1] == a + b[..n];
      PendingAppend(a, b[..n], committed);
    } else {
      assert a + b == a;
    }
  }

  /**
   * The recovery counting rule: errors is the number of pending operations,
   * recovered is the rest of the journal (checkpoints included) and is never
   * negative, and with journaling off everything is zero.
   */
  lemma RecoveryCounts(enabled: bool, journal: seq<JournalEntry>, inodes: map<int, Inode>)
    ensures var r := Recovery(enabled, journal, inodes);
      && r.errors == |r.pendingOperations|
      && r.errors <= CountKind(journal, Create)
      && 0 <= r.recovered
      && r.recovered + r.errors == (if enabled then |journal| else 0)
  {
    PendingBound(journal, Checksums(inodes));
  }

  /** When every CREATE reached a committed inode, recovery finds nothing pending. */
  lemma {:induction false} CommittedCreatesRecover(journal: seq<JournalEntry>, inodes: map<int, Inode>)
    requires AllCreatesCommitted(journal, inodes)
    ensures PendingCreates(journal, Checksums(inodes)) == []
  {
    if journal != [] {
      var init := journal[..|journal| - 1];
      assert AllCreatesCommitted(init, inodes) by {
        forall k | 0 <= k < |init| && init[k].payload.CreateIntent?
          ensures init[k].payload.dataChecksum in Checksums(inodes)
        {
          assert init[k] == journal[k];
        }
      }
      CommittedCreatesRecover(init, inodes);
    }
  }

  /**
   * A CREATE intent logged on top of a journal with nothing pending, for data
   * no committed inode carries, is the one pending operation afterwards,
   * named by its file and its envelope transaction id.
   */
  lemma InterruptedCreateIsPending(journal: seq<JournalEntry>, committed: set<Digest>, p: Payload,
                                   txId: int, live: set<int>, sum: Payload -> Digest)
    requires PendingCreates(journal, committed) == []
    requires p.CreateIntent? && p.dataChecksum !in committed
    ensures PendingCreates(Logged(journal, p, txId, live, sum), committed) == [PendingCreate(p.filename, txId)]
  {
    var e := JournalEntry(txId, p, sum(p));
    PendingAppend(journal, [e], committed);
    assert [e][..0] == [];
    var j := journal + [e];
    if |j| % CHECKPOINT_INTERVAL == 0 {
      var mark := CheckpointMark(live, |j|, txId);
      var c := JournalEntry(txId, mark, sum(mark));
      PendingAppend(j, [c], committed);
      assert [c][..0] == [];
    }
  }

  /** Adding an inode keeps every earlier checksum committed. */
  lemma CommittedGrows(journal: seq<JournalEntry>, inodes: map<int, Inode>, id: int, inode: Inode)
    requires id !in inodes
    requires AllCreatesCommitted(journal, inodes)
    ensures AllCreatesCommitted(journal, inodes[id := inode])
  {
    var grown := inodes[id := inode];
    forall k | 0 <= k < |journal| && journal[k].payload.CreateIntent?
      ensures journal[k].payload.dataChecksum in Checksums(grown)
    {
      var d := journal[k].payload.dataChecksum;
      var owner :| owner in inodes && inodes[owner].checksum == d;
      assert owner in grown && grown[owner].checksum == d;
    }
  }

  /** Reading an inode depends only on the buffers of its own blocks. */
  lemma InodeDataFrame(c1: seq<seq<byte>>, c2: seq<seq<byte>>, inode: Inode)
    requires |c1| == |c2|
    requires forall k :: 0 <= k < |inode.blocks| && 0 <= inode.blocks[k] < |c1| ==>
      c1[inode.blocks[k]] == c2[inode.blocks[k]]
    ensures InodeData(c1, inode) == InodeData(c2, inode)
  {
    if forall k :: 0 <= k < |inode.blocks| ==> 0 <= inode.blocks[k] < |c1| {
      assert Gather(c1, inode.blocks) == Gather(c2, inode.blocks);
    }
  }

  /**
   * The journal after one `create_file` call: nothing with journaling off;
   * otherwise the CREATE intent (with its checkpoint, if due) and, when the
   * file was committed, the METADATA entry (with its checkpoint, if due).
   */
  function CreateFileLog(journal: seq<JournalEntry>, enabled: bool, ok: bool, intent: Payload, commit: Payload,
                         stamp: int, before: set<int>, after: set<int>, sum: Payload -> Digest): seq<JournalEntry>
  {
    if !enabled then journal
    else
      var logged := Logged(journal, intent, stamp, before, sum);
      if ok then Logged(logged, commit, stamp, after, sum) else logged
  }

  /**
   * One `create_file` call leaves earlier entries alone, puts its CREATE
   * entry right after them, adds exactly one CREATE entry in all, and keeps
   * the checkpoint cadence; with journaling off the journal does not change.
   */
  lemma CreateFileLogFacts(journal: seq<JournalEntry>, enabled: bool, ok: bool, intent: Payload, commit: Payload,
                           stamp: int, before: set<int>, after: set<int>, sum: Payload -> Digest)
    requires intent.CreateIntent? && commit.InodeCommit?
    ensures var r := CreateFileLog(journal, enabled, ok, intent, commit, stamp, before, after, sum);
      && (!enabled ==> r == journal)
      && (enabled ==>
            && |journal| < |r|
            && r[..|journal|] == journal
            && r[|journal|] == JournalEntry(stamp, intent, sum(intent))
            && CountKind(r, Create) == CountKind(journal, Create) + 1)
      && (CheckpointCadence(journal) ==> CheckpointCadence(r))
  {
    if enabled {
      var logged := Logged(journal, intent, stamp, before, sum);
      LoggedShape(journal, intent, stamp, before, sum);
      LoggedCounts(journal, intent, stamp, before, sum, Create);
      if CheckpointCadence(journal) {
        LoggedKeepsCadence(journal, intent, stamp, before, sum);
      }
      if ok {
        var r := Logged(logged, commit, stamp, after, sum);
        LoggedShape(logged, commit, stamp, after, sum);
        LoggedCounts(logged, commit, stamp, after, sum, Create);
        if CheckpointCadence(logged) {
          LoggedKeepsCadence(logged, commit, stamp, after, sum);
        }
        assert r[..|logged|][..|journal|] == r[..|journal|];
        assert r[|journal|] == r[..|logged|][|journal|];
      }
    }
  }

  /**
   * A successful `create_file` commits an inode whose checksum is the one its
   * CREATE intent logged, so journals whose every CREATE was committed stay so.
   */
  lemma CreateFileKeepsCommitted(journal: seq<JournalEntry>, enabled: bool, intent: Payload, commit: Payload,
                                 stamp: int, before: set<int>, after: set<int>, sum: Payload -> Digest,
                                 inodes: map<int, Inode>, inode: Inode)
    requires intent.CreateIntent? && commit.InodeCommit?
    requires intent.dataChecksum == inode.checksum
    requires inode.id !in inodes
    requires AllCreatesCommitted(journal, inodes)
    ensures AllCreatesCommitted(CreateFileLog(journal, enabled, true, intent, commit, stamp, before, after, sum),
                                inodes[inode.id := inode])
  {
    var grown := inodes[inode.id := inode];
    var r := CreateFileLog(journal, enabled, true, intent, commit, stamp, before, after, sum);
    CommittedGrows(journal, inodes, inode.id, inode);
    assert inode.checksum in Checksums(grown) by {
      assert grown[inode.id] == inode;
    }
    if enabled {
      var logged := Logged(journal, intent, stamp, before, sum);
      LoggedShape(journal, intent, stamp, before, sum);
      LoggedShape(logged, commit, stamp, after, sum);
      forall k | 0 <= k < |r| && r[k].payload.CreateIntent?
        ensures r[k].payload.dataChecksum in Checksums(grown)
      {
        if k < |logged| {
          assert r[k] == logged[k];
          if k < |journal| {
            assert logged[k] == journal[k];
          }
        }
      }
    }
  }

  /** Blocks that were FREE before the writes belong to no committed file, so every committed file reads as before. */
  lemma UntouchedFilesRead(c0: seq<seq<byte>>, c1: seq<seq<byte>>, st: seq<BlockStatus>, alloc: seq<int>,
                           inodes: map<int, Inode>, next: int, blockSize: nat)
    requires InodeTableOk(inodes, next, blockSize, st)
    requires |c0| == |c1| == |st|
    requires forall k :: 0 <= k < |alloc| ==> 0 <= alloc[k] < |st| && st[alloc[k]] == Free
    requires forall b :: 0 <= b < |c0| && b !in alloc ==> c1[b] == c0[b]
    ensures forall id :: id in inodes ==> InodeData(c1, inodes[id]) == InodeData(c0, inodes[id])
  {
    forall id | id in inodes
      ensures InodeData(c1, inodes[id]) == InodeData(c0, inodes[id])
    {
      var inode := inodes[id];
      assert InodeFits(id, inode, next, blockSize, st);
      forall k | 0 <= k < |inode.blocks| && 0 <= inode.blocks[k] < |c1|
        ensures c1[inode.blocks[k]] == c0[inode.blocks[k]]
      {
        assert st[inode.blocks[k]] != Free;
      }
      InodeDataFrame(c1, c0, inode);
    }
  }

  // ---------------------------------------------------------------------------
  // The file system object
  // ---------------------------------------------------------------------------

  class JournalingFileSystem {
    const disk: VirtualDisk
    const journalEnabled: bool
    var journal: seq<JournalEntry>
    var currentTransactionId: int
    /** The journal-entry checksum (SHA-256 of the payload's JSON); only its determinism is relied on. */
    const journalChecksum: Payload -> Digest

    /** The disk is sound, a file system without journaling never logs, and entry ids are ordered. */
    ghost predicate Valid()
      reads this, disk, disk.blocks, disk.status
    {
      && disk.Valid()
      && (!journalEnabled ==> journal == [])
      && TxOrdered(journal, currentTransactionId)
    }

    constructor (disk: VirtualDisk, journalEnabled: bool, journalChecksum: Payload -> Digest)
      requires disk.Valid()
      ensures Valid()
      ensures this.disk == disk && this.journalEnabled == journalEnabled
      ensures this.journalChecksum == journalChecksum
      ensures journal == [] && currentTransactionId == 1
    {
      this.disk := disk;
      this.journalEnabled := journalEnabled;
      this.journalChecksum := journalChecksum;
      journal := [];
      currentTransactionId := 1;
    }

    /** Hands out the current transaction id and advances the counter by one. */
    method BeginTransaction() returns (txId: int)
      requires Valid()
      modifies this`currentTransactionId
      ensures Valid()
      ensures txId == old(currentTransactionId) && currentTransactionId == txId + 1
    {
      txId := currentTransactionId;
      currentTransactionId := currentTransactionId + 1;
    }

    /**
     * With journaling off, nothing.  Otherwise one entry stamped with the
     * current (already advanced) counter, followed by a checkpoint when the
     * journal length reaches a multiple of 5; earlier entries stay as they were.
     */
    method JournalOperation(p: Payload)
      requires Valid()
      modifies this`journal
      ensures Valid()
      ensures journal ==
        if journalEnabled then Logged(old(journal), p, currentTransactionId, disk.inodes.Keys, journalChecksum)
        else old(journal)
    {
      if !journalEnabled {
        return;
      }
      journal := journal + [JournalEntry(currentTransactionId, p, journalChecksum(p))];
      if |journal| % CHECKPOINT_INTERVAL == 0 {
        CreateCheckpoint();
      }
      LoggedKeepsOrder(old(journal), p, currentTransactionId, disk.inodes.Keys, journalChecksum, currentTransactionId);
    }

    /** Appends a checkpoint naming the live inode ids and the journal length so far. */
    method CreateCheckpoint()
      requires Valid() && journalEnabled
      modifies this`journal
      ensures journal ==
        old(journal) + [JournalEntry(currentTransactionId,
                                     CheckpointMark(disk.inodes.Keys, |old(journal)|, currentTransactionId),
                                     journalChecksum(CheckpointMark(disk.inodes.Keys, |old(journal)|, currentTransactionId)))]
    {
      var mark := CheckpointMark(disk.inodes.Keys, |journal|, currentTransactionId);
      journal := journal + [JournalEntry(currentTransactionId, mark, journalChecksum(mark))];
    }

    /**
     * Logs the CREATE intent, allocates ceil(|data| / blockSize) FREE blocks
     * first-fit, writes the data chunk by chunk, commits an inode under the
     * next inode id and logs the METADATA entry.  Fails, committing nothing
     * and writing no block, when the allocation comes back empty, which
     * includes every empty file; the CREATE entry already logged stays.
     */
    method CreateFile(filename: string, data: seq<byte>) returns (ok: bool)
      requires Valid()
      modifies this, disk, disk.blocks, disk.status
      ensures Valid()
      ensures currentTransactionId == old(currentTransactionId) + 1
      ensures ok <==> 0 < |data| && BlocksNeeded(|data|, disk.blockSize) <= old(Count(disk.status[..], Free))
      ensures journal == CreateFileLog(old(journal), journalEnabled, ok,
        CreateIntent(filename, |data|, disk.calculateChecksum(data), old(currentTransactionId)),
        InodeCommit(old(disk.nextInodeId), filename,
                    FirstFit(old(disk.status[..]), BlocksNeeded(|data|, disk.blockSize)), old(currentTransactionId)),
        currentTransactionId, old(disk.inodes).Keys, disk.inodes.Keys, journalChecksum)
      ensures !ok ==>
        && disk.inodes == old(disk.inodes) && disk.nextInodeId == old(disk.nextInodeId)
        && disk.blocks[..] == old(disk.blocks[..]) && disk.status[..] == old(disk.status[..])
      ensures ok ==>
        var alloc := FirstFit(old(disk.status[..]), BlocksNeeded(|data|, disk.blockSize));
        && disk.nextInodeId == old(disk.nextInodeId) + 1
        && disk.inodes == old(disk.inodes)[old(disk.nextInodeId) :=
             Inode(old(disk.nextInodeId), |data|, alloc, disk.calculateChecksum(data))]
        && disk.status[..] == Assign(old(disk.status[..]), alloc, Used)
        && (forall k :: 0 <= k < |alloc| ==>
              0 <= alloc[k] < disk.blocks.Length &&
              disk.blocks[alloc[k]] == Padded(Chunk(data, disk.blockSize, k), disk.blockSize))
        && (forall b :: 0 <= b < disk.totalBlocks && b !in alloc ==> disk.blocks[b] == old(disk.blocks[b]))
      ensures ok ==> InodeData(disk.blocks[..], disk.inodes[old(disk.nextInodeId)]) == Some(data)
      ensures forall id :: id in old(disk.inodes) ==>
        InodeData(disk.blocks[..], old(disk.inodes)[id]) == InodeData(old(disk.blocks[..]), old(disk.inodes)[id])
    {
      var txId := BeginTransaction();
      if journalEnabled {
        JournalOperation(CreateIntent(filename, |data|, disk.calculateChecksum(data), txId));
      }
      var inodeId := disk.nextInodeId;
      var freeBlocks := StoreFile(data);
      ok := freeBlocks != [];
      if ok && journalEnabled {
        JournalOperation(InodeCommit(inodeId, filename, freeBlocks, txId));
      }
    }

    /**
     * The allocation, write and inode phases of `create_file`: an empty
     * allocation is the failure, with nothing changed; otherwise the data is
     * in the allocated blocks and the new inode reads it back.
     */
    method StoreFile(data: seq<byte>) returns (alloc: seq<int>)
      requires disk.Valid()
      modifies disk, disk.blocks, disk.status
      ensures disk.Valid()
      ensures alloc == FirstFit(old(disk.status[..]), BlocksNeeded(|data|, disk.blockSize))
      ensures alloc != [] <==> 0 < |data| && BlocksNeeded(|data|, disk.blockSize) <= old(Count(disk.status[..], Free))
      ensures alloc == [] ==>
        && disk.inodes == old(disk.inodes) && disk.nextInodeId == old(disk.nextInodeId)
        && disk.blocks[..] == old(disk.blocks[..]) && disk.status[..] == old(disk.status[..])
      ensures alloc != [] ==>
        && disk.nextInodeId == old(disk.nextInodeId) + 1
        && disk.inodes == old(disk.inodes)[old(disk.nextInodeId) :=
             Inode(old(disk.nextInodeId), |data|, alloc, disk.calculateChecksum(data))]
        && disk.status[..] == Assign(old(disk.status[..]), alloc, Used)
        && (forall k :: 0 <= k < |alloc| ==>
              0 <= alloc[k] < disk.blocks.Length &&
              disk.blocks[alloc[k]] == Padded(Chunk(data, disk.blockSize, k), disk.blockSize))
        && (forall b :: 0 <= b < disk.totalBlocks && b !in alloc ==> disk.blocks[b] == old(disk.blocks[b]))
      ensures alloc != [] ==> InodeData(disk.blocks[..], disk.inodes[old(disk.nextInodeId)]) == Some(data)
      ensures forall id :: id in old(disk.inodes) ==>
        InodeData(disk.blocks[..], old(disk.inodes)[id]) == InodeData(old(disk.blocks[..]), old(disk.inodes)[id])
    {
      ghost var st0 := disk.status[..];
      ghost var contents0 := disk.blocks[..];
      var blocksNeeded := (|data| + disk.blockSize - 1) / disk.blockSize;
      assert blocksNeeded == BlocksNeeded(|data|, disk.blockSize);
      alloc := disk.GetFreeBlocks(blocksNeeded);
      AllocationSucceeds(st0, |data|, disk.blockSize);
      if alloc == [] {
        return;
      }
      FirstFitSpec(st0, blocksNeeded);
      WriteChunks(alloc, data);
      var inode := Inode(disk.nextInodeId, |data|, alloc, disk.calculateChecksum(data));
      ReadBackWritten(disk.blocks[..], alloc, data, disk.blockSize, inode.id, inode.checksum);
      UntouchedFilesRead(contents0, disk.blocks[..], st0, alloc, disk.inodes, disk.nextInodeId, disk.blockSize);
      InodeTableCommit(disk.inodes, disk.nextInodeId, disk.blockSize, disk.status[..], inode);
      disk.AddInode(inode);
    }

    /** The write phase of `create_file`: chunk k of the data goes, zero-padded, to block alloc[k]. */
    method WriteChunks(alloc: seq<int>, data: seq<byte>)
      requires disk.Valid()
      requires Ascending(alloc)
      requires forall k :: 0 <= k < |alloc| ==> 0 <= alloc[k] < disk.totalBlocks && disk.status[alloc[k]] == Free
      modifies disk.blocks, disk.status
      ensures disk.Valid()
      ensures disk.status[..] == Assign(old(disk.status[..]), alloc, Used)
      ensures forall k :: 0 <= k < |alloc| ==> disk.blocks[alloc[k]] == Padded(Chunk(data, disk.blockSize, k), disk.blockSize)
      ensures forall b :: 0 <= b < disk.totalBlocks && b !in alloc ==> disk.blocks[b] == old(disk.blocks[b])
    {
      var bs := disk.blockSize;
      var i := 0;
      while i < |alloc|
        invariant 0 <= i <= |alloc|
        invariant disk.Valid()
        invariant disk.status[..] == Assign(old(disk.status[..]), alloc[..i], Used)
        invariant forall k :: 0 <= k < i ==> disk.blocks[alloc[k]] == Padded(Chunk(data, bs, k), bs)
        invariant forall b :: 0 <= b < disk.totalBlocks && b !in alloc[..i] ==> disk.blocks[b] == old(disk.blocks[b])
      {
        var start := i * bs;
        var blockData := Slice(data, start, start + bs);
        var _ := disk.WriteBlock(alloc[i], blockData);
        assert alloc[..i + 1] == alloc[..i] + [alloc[i]];
        forall k | 0 <= k < i
          ensures disk.blocks[alloc[k]] == Padded(Chunk(data, bs, k), bs)
        {
          assert alloc[k] < alloc[i];
        }
        i := i + 1;
      }
      assert alloc[..i] == alloc;
    }

    /**
     * Unknown inode: nothing.  Otherwise its blocks joined and cut to its
     * size, whatever their status; a checksum mismatch is only reported.
     */
    method ReadFile(inodeId: int) returns (r: Option<seq<byte>>)
      requires Valid()
      ensures r == if inodeId in disk.inodes then InodeData(disk.blocks[..], disk.inodes[inodeId]) else None
    {
      if inodeId !in disk.inodes {
        return None;
      }
      var inode := disk.inodes[inodeId];
      var parts: seq<seq<byte>> := [];
      var i := 0;
      while i < |inode.blocks|
        invariant 0 <= i <= |inode.blocks|
        invariant forall k :: 0 <= k < i ==> 0 <= inode.blocks[k] < disk.blocks.Length
        invariant parts == Gather(disk.blocks[..], inode.blocks[..i])
      {
        var blockData := disk.ReadBlock(inode.blocks[i]);
        if blockData.Some? && blockData.value != [] {
          parts := parts + [blockData.value];
        } else {
          return None;
        }
        i := i + 1;
      }
      assert inode.blocks[..i] == inode.blocks;
      return Some(Prefix(Concat(parts), inode.size));
    }

    /**
     * Checksum-based reconciliation: every CREATE entry whose data checksum
     * no inode carries is pending and counts as an error; everything else in
     * the journal, checkpoints included, counts as recovered.
     */
    method RecoverFromJournal() returns (r: RecoveryStats)
      requires Valid()
      ensures r == Recovery(journalEnabled, journal, disk.inodes)
      ensures r.errors == |r.pendingOperations|
      ensures journalEnabled ==> 0 <= r.recovered && r.recovered + r.errors == |journal|
      ensures !journalEnabled ==> r == RecoveryStats(0, 0, [])
    {
      RecoveryCounts(journalEnabled, journal, disk.inodes);
      if !journalEnabled {
        return RecoveryStats(0, 0, []);
      }
      var pending: seq<PendingOperation> := [];
      var errors := 0;
      var i := 0;
      while i < |journal|
        invariant 0 <= i <= |journal|
        invariant pending == PendingCreates(journal[..i], Checksums(disk.inodes))
        invariant errors == |pending|
      {
        assert journal[..i + 1][..i] == journal[..i];
        var entry := journal[i];
        if entry.payload.CreateIntent? {
          var dataChecksum := entry.payload.dataChecksum;
          var fileExists := exists id | id in disk.inodes :: disk.inodes[id].checksum == dataChecksum;
          assert fileExists <==> dataChecksum in Checksums(disk.inodes);
          if !fileExists {
            pending := pending + [PendingCreate(entry.payload.filename, entry.transactionId)];
            errors := errors + 1;
          }
        }
        i := i + 1;
      }
      assert journal[..i] == journal;
      r := RecoveryStats(|journal| - errors, errors, pending);
    }

    /** Tallies the journal by entry kind; a kind appears in the tally only when present. */
    method GetJournalStats() returns (r: JournalStats)
      ensures r.totalEntries == |journal| && r.journalEnabled == journalEnabled
      ensures r.currentTransaction == currentTransactionId
      ensures forall t :: t in r.entryTypes <==> CountKind(journal, t) > 0
      ensures forall t :: t in r.entryTypes ==> r.entryTypes[t] == CountKind(journal, t)
    {
      var entryTypes: map<EntryType, nat> := map[];
      var i := 0;
      while i < |journal|
        invariant 0 <= i <= |journal|
        invariant forall t :: t in entryTypes <==> CountKind(journal[..i], t) > 0
        invariant forall t :: t in entryTypes ==> entryTypes[t] == CountKind(journal[..i], t)
      {
        assert journal[..i + 1][..i] == journal[..i];
        var kind := journal[i].payload.Kind();
        var seen := if kind in entryTypes then entryTypes[kind] else 0;
        entryTypes := entryTypes[kind := seen + 1];
        i := i + 1;
      }
      assert journal[..i] == journal;
      r := JournalStats(|journal|, entryTypes, journalEnabled, currentTransactionId);
    }
  }
}
