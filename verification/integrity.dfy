/**
 * The integrity checker: a read-only pass over a virtual disk that tallies
 * the block statuses and classifies every inode as intact, checksum
 * mismatch, unreadable or sitting on corrupted blocks, plus the comparison
 * of two such reports.
 */
module Integrity {
  import opened Wrappers
  import opened Disk

  /** One entry of the report's file lists; the digests of a mismatch are abbreviated. */
  datatype FileRecord =
    | IntegrityOk(inodeId: int, size: nat, blocksUsed: nat)
    | ChecksumMismatch(inodeId: int, expected: string, actual: string)
    | UnableToRead(inodeId: int)
    | CorruptedBlocks(inodeId: int, corruptedCount: nat, totalBlocks: nat, recoverable: bool)

  /** What `comprehensive_integrity_check` returns. */
  datatype Report = Report(
    totalBlocks: nat, freeBlocks: nat, usedBlocks: nat, corruptedBlocks: nat,
    inodesChecked: nat, inodesIntegrityOk: nat, inodesIntegrityFailed: nat,
    corruptedFiles: seq<FileRecord>, recoverableFiles: seq<FileRecord>,
    blockStatusSummary: map<BlockStatus, nat>)

  /** The integer fields of `compare_fs_states`; the two percentages are not modelled. */
  datatype Comparison = Comparison(blocksLost: int, newCorruptions: nat, filesRecovered: nat, filesLost: nat)

  /** The first 16 characters of a digest followed by an ellipsis. */
  function Abbrev(d: Digest): (r: string)
    ensures |r| == (if |d| < 16 then |d| else 16) + 3
    ensures r[..|r| - 3] <= d && r[|r| - 3..] == "..."
  {
    (if |d| <= 16 then d else d[..16]) + "..."
  }

  predicate InRange(st: seq<BlockStatus>, refs: seq<int>)
  {
    forall k :: 0 <= k < |refs| ==> 0 <= refs[k] < |st|
  }

  /** Every block of the inode is in range and not CORRUPTED. */
  predicate Accessible(st: seq<BlockStatus>, inode: Inode)
  {
    forall k :: 0 <= k < |inode.blocks| ==> 0 <= inode.blocks[k] < |st| && st[inode.blocks[k]] != Corrupted
  }

  /** How many of the references point at a CORRUPTED block (repeats counted). */
  function CorruptedCount(st: seq<BlockStatus>, refs: seq<int>): (n: nat)
    requires InRange(st, refs)
    ensures n <= |refs|
  {
    if refs == [] then 0
    else CorruptedCount(st, refs[..|refs| - 1]) + (if st[refs[|refs| - 1]] == Corrupted then 1 else 0)
  }

  /** All references corrupted exactly when the count reaches their number. */
  lemma {:induction false} CorruptedCountFull(st: seq<BlockStatus>, refs: seq<int>)
    requires InRange(st, refs)
    ensures CorruptedCount(st, refs) == |refs| <==> forall k :: 0 <= k < |refs| ==> st[refs[k]] == Corrupted
  {
    if refs != [] {
      var init := refs[..|refs| - 1];
      CorruptedCountFull(st, init);
      assert forall k :: 0 <= k < |init| ==> init[k] == refs[k];
    }
  }

  /** None corrupted exactly when the count is zero. */
  lemma {:induction false} CorruptedCountZero(st: seq<BlockStatus>, refs: seq<int>)
    requires InRange(st, refs)
    ensures CorruptedCount(st, refs) == 0 <==> forall k :: 0 <= k < |refs| ==> st[refs[k]] != Corrupted
  {
    if refs != [] {
      var init := refs[..|refs| - 1];
      CorruptedCountZero(st, init);
      assert forall k :: 0 <= k < |init| ==> init[k] == refs[k];
    }
  }

  /**
   * The verdict on inode `id`: with every block readable, its data checked
   * against the stored checksum; otherwise how many of its blocks are
   * corrupted, recoverable while at least one is not.
   */
  function Classify(contents: seq<seq<byte>>, st: seq<BlockStatus>, id: int, inode: Inode,
                    sum: seq<byte> -> Digest): FileRecord
    requires |contents| == |st| && InRange(st, inode.blocks)
  {
    if Accessible(st, inode) then
      match InodeData(contents, inode)
      case None => UnableToRead(id)
      case Some(data) =>
        if sum(data) == inode.checksum then IntegrityOk(id, inode.size, |inode.blocks|)
        else ChecksumMismatch(id, Abbrev(inode.checksum), Abbrev(sum(data)))
    else
      var n := CorruptedCount(st, inode.blocks);
      CorruptedBlocks(id, n, |inode.blocks|, n < |inode.blocks|)
  }

  /** UNABLE_TO_READ is never reported: an accessible inode's blocks are all in range. */
  lemma NeverUnableToRead(contents: seq<seq<byte>>, st: seq<BlockStatus>, id: int, inode: Inode,
                          sum: seq<byte> -> Digest)
    requires |contents| == |st| && InRange(st, inode.blocks)
    ensures !Classify(contents, st, id, inode, sum).UnableToRead?
  {
  }

  /**
   * The classification in full: intact exactly when every block is readable
   * and the data matches the checksum; a corrupted-blocks verdict exactly
   * when some block is corrupted, recoverable exactly when some other is not.
   */
  lemma ClassifySpec(contents: seq<seq<byte>>, st: seq<BlockStatus>, id: int, inode: Inode,
                     sum: seq<byte> -> Digest)
    requires |contents| == |st| && InRange(st, inode.blocks)
    ensures var r := Classify(contents, st, id, inode, sum);
      && r.inodeId == id
      && (r.IntegrityOk? <==> Accessible(st, inode) && sum(InodeData(contents, inode).value) == inode.checksum)
      && (r.CorruptedBlocks? <==> exists k :: 0 <= k < |inode.blocks| && st[inode.blocks[k]] == Corrupted)
      && (r.CorruptedBlocks? ==>
            && r.totalBlocks == |inode.blocks|
            && 0 < r.corruptedCount
            && (r.recoverable <==> exists k :: 0 <= k < |inode.blocks| && st[inode.blocks[k]] != Corrupted))
  {
    CorruptedCountFull(st, inode.blocks);
    CorruptedCountZero(st, inode.blocks);
  }

  /**
   * Marking blocks `c` CORRUPTED (contents untouched) keeps an intact file
   * intact exactly when none of its blocks is among them.
   */
  lemma CorruptionHitsOnlyItsFiles(contents: seq<seq<byte>>, st: seq<BlockStatus>, c: seq<int>, id: int,
                                   inode: Inode, sum: seq<byte> -> Digest)
    requires |contents| == |st| && InRange(st, inode.blocks)
    requires Classify(contents, st, id, inode, sum).IntegrityOk?
    ensures Classify(contents, Assign(st, c, Corrupted), id, inode, sum).IntegrityOk? <==>
      forall k :: 0 <= k < |inode.blocks| ==> inode.blocks[k] !in c
  {
    var st' := Assign(st, c, Corrupted);
    ClassifySpec(contents, st, id, inode, sum);
    ClassifySpec(contents, st', id, inode, sum);
  }

  /** `summary` names exactly the statuses present in `st`, each with its count. */
  predicate Summarizes(summary: map<BlockStatus, nat>, st: seq<BlockStatus>)
  {
    forall s :: (s in summary <==> Count(st, s) > 0) && (s in summary ==> summary[s] == Count(st, s))
  }

  /** Tallying one more status into the summary keeps it a summary of the longer prefix. */
  lemma SummaryStep(summary: map<BlockStatus, nat>, st: seq<BlockStatus>, i: nat)
    requires i < |st| && Summarizes(summary, st[..i])
    ensures Summarizes(summary[st[i] := (if st[i] in summary then summary[st[i]] else 0) + 1], st[..i + 1])
  {
    CountStep(st, i);
  }

  // ---------------------------------------------------------------------------
  // Accounting for the inodes of a pass
  // ---------------------------------------------------------------------------

  /** A member of a non-empty set. */
  lemma SomeMember<T>(s: set<T>) returns (x: T)
    requires s != {}
    ensures x in s
  {
    x :| x in s;
  }

  /** Moving one member from the sets still to visit to the visited ones keeps the account. */
  lemma VisitOne<T>(all: set<T>, remaining: set<T>, seen: set<T>, x: T)
    requires remaining <= all && seen == all - remaining && x in remaining
    ensures remaining - {x} <= all && seen + {x} == all - (remaining - {x})
    ensures |remaining - {x}| == |remaining| - 1
  {
  }

  /** The inode ids a list of records mentions. */
  function IdSet(records: seq<FileRecord>): set<int>
  {
    set k | 0 <= k < |records| :: records[k].inodeId
  }

  lemma IdSetSnoc(records: seq<FileRecord>, f: FileRecord)
    ensures IdSet(records + [f]) == IdSet(records) + {f.inodeId}
  {
    var grown := records + [f];
    assert grown[|records|] == f;
    forall x | x in IdSet(grown)
      ensures x in IdSet(records) + {f.inodeId}
    {
      var k :| 0 <= k < |grown| && grown[k].inodeId == x;
      if k < |records| {
        assert records[k].inodeId == x;
      }
    }
    forall k | 0 <= k < |records|
      ensures records[k].inodeId in IdSet(grown)
    {
      assert grown[k] == records[k];
    }
  }

  // ---------------------------------------------------------------------------
  // Comparing two reports
  // ---------------------------------------------------------------------------

  /**
   * The integer part of `compare_fs_states(before, after)`: the USED blocks
   * that went missing, all corruption present afterwards, and the files
   * found intact and corrupted afterwards.
   */
  function CompareFsStates(before: Report, after: Report): (r: Comparison)
    ensures r.blocksLost == before.usedBlocks - after.usedBlocks
    ensures r.newCorruptions == after.corruptedBlocks
    ensures r.filesRecovered == after.inodesIntegrityOk && r.filesLost == |after.corruptedFiles|
  {
    Comparison(before.usedBlocks - after.usedBlocks, after.corruptedBlocks,
               after.inodesIntegrityOk, |after.corruptedFiles|)
  }

  /** The block tallies of a report agree with a status table. */
  ghost predicate TalliesOf(r: Report, st: seq<BlockStatus>)
  {
    && r.usedBlocks == Count(st, Used)
    && r.corruptedBlocks == Count(st, Corrupted)
  }

  /**
   * Compared across a crash that corrupts the distinct USED blocks `c`, the
   * blocks lost are exactly |c| and the corruptions are the earlier ones plus |c|.
   */
  lemma CompareAcrossCrash(before: Report, after: Report, st: seq<BlockStatus>, c: seq<int>)
    requires Ascending(c)
    requires forall k :: 0 <= k < |c| ==> 0 <= c[k] < |st| && st[c[k]] == Used
    requires TalliesOf(before, st) && TalliesOf(after, Assign(st, c, Corrupted))
    ensures CompareFsStates(before, after).blocksLost == |c|
    ensures CompareFsStates(before, after).newCorruptions == Count(st, Corrupted) + |c|
  {
    AssignCounts(st, c, Used, Corrupted);
  }

  // ---------------------------------------------------------------------------
  // The checker
  // ---------------------------------------------------------------------------

  class IntegrityChecker {
    const disk: VirtualDisk

    constructor (disk: VirtualDisk)
      ensures this.disk == disk
    {
      this.disk := disk;
    }

    /** `f` is the verdict on an inode of the table, as the disk stands. */
    ghost predicate Reported(f: FileRecord)
      reads disk, disk.blocks, disk.status
    {
      && f.inodeId in disk.inodes
      && disk.blocks.Length == disk.status.Length
      && InRange(disk.status[..], disk.inodes[f.inodeId].blocks)
      && f == Classify(disk.blocks[..], disk.status[..], f.inodeId, disk.inodes[f.inodeId], disk.calculateChecksum)
    }

    /** Every record is an intact verdict on an inode of the table. */
    ghost predicate AllIntact(records: seq<FileRecord>)
      reads disk, disk.blocks, disk.status
    {
      forall k :: 0 <= k < |records| ==> records[k].IntegrityOk? && Reported(records[k])
    }

    /** Every record is a failed verdict on an inode of the table, and none is UNABLE_TO_READ. */
    ghost predicate AllFailed(records: seq<FileRecord>)
      reads disk, disk.blocks, disk.status
    {
      forall k :: 0 <= k < |records| ==>
        !records[k].IntegrityOk? && !records[k].UnableToRead? && Reported(records[k])
    }

    /**
     * Reads the inode's blocks in order and joins them, cut to its size;
     * nothing as soon as one block reads back empty or out of range.
     */
    method ReadInodeData(inode: Inode) returns (r: Option<seq<byte>>)
      requires disk.Valid()
      ensures r == InodeData(disk.blocks[..], inode)
    {
      var parts: seq<seq<byte>> := [];
      var i := 0;
      while i < |inode.blocks|
        invariant 0 <= i <= |inode.blocks|
        invariant forall k :: 0 <= k < i ==> 0 <= inode.blocks[k] < disk.blocks.Length
        invariant parts == Gather(disk.blocks[..], inode.blocks[..i])
      {
        var blockData := disk.ReadBlock(inode.blocks[i]);
        if blockData.Some? && blockData.value != [] {
          parts := parts + [blockData.value];
        } else {
          return None;
        }
        i := i + 1;
      }
      assert inode.blocks[..i] == inode.blocks;
      return Some(Prefix(Concat(parts), inode.size));
    }

    /** The verdict on inode `id` of the table; never UNABLE_TO_READ. */
    method CheckInode(id: int) returns (r: FileRecord)
      requires disk.Valid() && id in disk.inodes
      ensures InRange(disk.status[..], disk.inodes[id].blocks)
      ensures r == Classify(disk.blocks[..], disk.status[..], id, disk.inodes[id], disk.calculateChecksum)
      ensures Reported(r) && r.inodeId == id && !r.UnableToRead?
    {
      var inode := disk.inodes[id];
      assert InodeFits(id, inode, disk.nextInodeId, disk.blockSize, disk.status[..]);
      NeverUnableToRead(disk.blocks[..], disk.status[..], id, inode, disk.calculateChecksum);
      var accessible := forall k | 0 <= k < |inode.blocks| ::
        0 <= inode.blocks[k] < disk.totalBlocks && disk.status[inode.blocks[k]] != Corrupted;
      if accessible {
        var fileData := ReadInodeData(inode);
        if fileData.Some? {
          var current := disk.calculateChecksum(fileData.value);
          if current == inode.checksum {
            r := IntegrityOk(id, inode.size, |inode.blocks|);
          } else {
            r := ChecksumMismatch(id, Abbrev(inode.checksum), Abbrev(current));
          }
        } else {
          r := UnableToRead(id);
        }
      } else {
        var n := CorruptedCount(disk.status[..], inode.blocks);
        r := CorruptedBlocks(id, n, |inode.blocks|, n < |inode.blocks|);
      }
    }

    /**
     * Tallies the block statuses and classifies every inode; intact files
     * go to the recoverable list, every other verdict to the corrupted one.
     * Changes nothing.
     */
    method ComprehensiveIntegrityCheck() returns (r: Report)
      requires disk.Valid()
      ensures r.totalBlocks == disk.totalBlocks
      ensures r.freeBlocks == Count(disk.status[..], Free)
      ensures r.usedBlocks == Count(disk.status[..], Used)
      ensures r.corruptedBlocks == Count(disk.status[..], Corrupted)
      ensures r.freeBlocks + r.usedBlocks + r.corruptedBlocks == r.totalBlocks
      ensures forall s :: s in r.blockStatusSummary <==> Count(disk.status[..], s) > 0
      ensures forall s :: s in r.blockStatusSummary ==> r.blockStatusSummary[s] == Count(disk.status[..], s)
      ensures r.inodesChecked == |disk.inodes|
      ensures r.inodesIntegrityOk == |r.recoverableFiles| && r.inodesIntegrityFailed == |r.corruptedFiles|
      ensures r.inodesIntegrityOk + r.inodesIntegrityFailed == r.inodesChecked
      ensures forall f :: f in r.recoverableFiles ==>
        && f.IntegrityOk? && Reported(f)
      ensures forall f :: f in r.corruptedFiles ==>
        && !f.IntegrityOk? && !f.UnableToRead? && Reported(f)
      ensures IdSet(r.recoverableFiles) + IdSet(r.corruptedFiles) == disk.inodes.Keys
    {
      var free, used, corrupted, summary := TallyBlocks();
      var checked, ok, failed, corruptedFiles, recoverableFiles := CheckInodes();
      r := Report(disk.totalBlocks, free, used, corrupted, checked, ok, failed,
                  corruptedFiles, recoverableFiles, summary);
    }

    /** The block pass: one count per status and the summary of the statuses present. */
    method TallyBlocks() returns (free: nat, used: nat, corrupted: nat, summary: map<BlockStatus, nat>)
      requires disk.status.Length == disk.totalBlocks
      ensures free == Count(disk.status[..], Free)
      ensures used == Count(disk.status[..], Used)
      ensures corrupted == Count(disk.status[..], Corrupted)
      ensures free + used + corrupted == disk.totalBlocks
      ensures Summarizes(summary, disk.status[..])
    {
      free, used, corrupted := 0, 0, 0;
      summary := map[];
      var i := 0;
      while i < disk.totalBlocks
        invariant 0 <= i <= disk.totalBlocks
        invariant free == Count(disk.status[..i], Free)
        invariant used == Count(disk.status[..i], Used)
        invariant corrupted == Count(disk.status[..i], Corrupted)
        invariant Summarizes(summary, disk.status[..i])
      {
        var status := disk.status[i];
        CountStep(disk.status[..], i);
        SummaryStep(summary, disk.status[..], i);
        summary := summary[status := (if status in summary then summary[status] else 0) + 1];
        if status == Free {
          free := free + 1;
        } else if status == Used {
          used := used + 1;
        } else if status == Corrupted {
          corrupted := corrupted + 1;
        }
        i := i + 1;
      }
      assert disk.status[..i] == disk.status[..];
      CountPartition(disk.status[..]);
    }

    /**
     * The inode pass, over the inode table in some order: one verdict per
     * inode, so the lists name every inode exactly once between them.
     */
    method CheckInodes() returns (checked: nat, ok: nat, failed: nat,
                                  corruptedFiles: seq<FileRecord>, recoverableFiles: seq<FileRecord>)
      requires disk.Valid()
      ensures checked == |disk.inodes|
      ensures ok == |recoverableFiles| && failed == |corruptedFiles| && ok + failed == checked
      ensures AllIntact(recoverableFiles) && AllFailed(corruptedFiles)
      ensures IdSet(recoverableFiles) + IdSet(corruptedFiles) == disk.inodes.Keys
    {
      checked, ok, failed := 0, 0, 0;
      recoverableFiles, corruptedFiles := [], [];
      var remaining := disk.inodes.Keys;
      while remaining != {}
        invariant remaining <= disk.inodes.Keys
        invariant checked == ok + failed && ok == |recoverableFiles| && failed == |corruptedFiles|
        invariant IdSet(recoverableFiles) + IdSet(corruptedFiles) == disk.inodes.Keys - remaining
        invariant checked + |remaining| == |disk.inodes|
        invariant AllIntact(recoverableFiles) && AllFailed(corruptedFiles)
        decreases |remaining|
      {
        ghost var some := SomeMember(remaining);
        var id :| id in remaining;
        checked := checked + 1;
        var intact;
        VisitOne(disk.inodes.Keys, remaining, IdSet(recoverableFiles) + IdSet(corruptedFiles), id);
        intact, recoverableFiles, corruptedFiles := FileVerdict(id, recoverableFiles, corruptedFiles);
        if intact {
          ok := ok + 1;
        } else {
          failed := failed + 1;
        }
        remaining := remaining - {id};
      }
    }

    /** One step of the inode pass: the verdict on inode `id` joins the list it belongs to. */
    method FileVerdict(id: int, recoverableFiles: seq<FileRecord>, corruptedFiles: seq<FileRecord>)
      returns (intact: bool, recoverable: seq<FileRecord>, corrupted: seq<FileRecord>)
      requires disk.Valid() && id in disk.inodes
      requires AllIntact(recoverableFiles) && AllFailed(corruptedFiles)
      ensures AllIntact(recoverable) && AllFailed(corrupted)
      ensures intact ==> |recoverable| == |recoverableFiles| + 1 && corrupted == corruptedFiles
      ensures !intact ==> recoverable == recoverableFiles && |corrupted| == |corruptedFiles| + 1
      ensures IdSet(recoverable) + IdSet(corrupted) == IdSet(recoverableFiles) + IdSet(corruptedFiles) + {id}
    {
      var record := CheckInode(id);
      intact := record.IntegrityOk?;
      recoverable, corrupted := recoverableFiles, corruptedFiles;
      if intact {
        IdSetSnoc(recoverableFiles, record);
        recoverable := recoverableFiles + [record];
      } else {
        IdSetSnoc(corruptedFiles, record);
        corrupted := corruptedFiles + [record];
      }
    }
  }
}
