/**
 * The simulated block device: a fixed number of fixed-size block buffers, a
 * parallel status table (FREE / USED / CORRUPTED), the inode table and the
 * inode-id counter.  Corruption is a status flag only; it never touches the
 * buffer contents.
 */
module Disk {
  import opened Wrappers

  newtype byte = x: int | 0 <= x < 256

  /** A hex digest, as produced by the checksum function. */
  type Digest = string

  datatype BlockStatus = Free | Used | Corrupted

  /** File metadata; the creation and modification timestamps are not modelled. */
  datatype Inode = Inode(id: int, size: nat, blocks: seq<int>, checksum: Digest)

  datatype DiskStats = DiskStats(
    totalBlocks: nat, freeBlocks: nat, usedBlocks: nat, corruptedBlocks: nat, totalInodes: nat)

  function Zeros(n: nat): seq<byte>
  {
    seq(n, _ => 0)
  }

  /** The buffer a block holds after a write of `data`: cut to `size` bytes, then zero-filled to `size`. */
  function Padded(data: seq<byte>, size: nat): (r: seq<byte>)
    ensures |r| == size
    ensures forall i :: 0 <= i < size ==> r[i] == if i < |data| then data[i] else 0
  {
    var kept := if |data| > size then data[..size] else data;
    kept + Zeros(size - |kept|)
  }

  /** Number of blocks a file of `size` bytes occupies: the ceiling of size / blockSize. */
  function BlocksNeeded(size: nat, blockSize: nat): (q: nat)
    requires blockSize > 0
    ensures q == 0 <==> size == 0
  {
    var q := (size + blockSize - 1) / blockSize;
    var r := (size + blockSize - 1) % blockSize;
    assert size + blockSize - 1 == q * blockSize + r;
    q
  }

  /** The block count covers the file, its last block holds at least one byte, and only an empty file needs none. */
  lemma BlocksNeededBounds(size: nat, blockSize: nat)
    requires blockSize > 0
    ensures var q := BlocksNeeded(size, blockSize);
      && size <= q * blockSize
      && (q > 0 ==> (q - 1) * blockSize < size)
  {
    var q := (size + blockSize - 1) / blockSize;
    var r := (size + blockSize - 1) % blockSize;
    assert size + blockSize - 1 == q * blockSize + r;
  }

  /** Number of whole blocks of `blockSize` bytes in a device of `sizeMb` megabytes. */
  function DeviceBlocks(sizeMb: nat, blockSize: nat): nat
    requires blockSize > 0
  {
    (sizeMb * 1024 * 1024) / blockSize
  }

  /** A sequence slice with the clamping of a byte-string slice `s[lo:hi]` (for 0 <= lo <= hi). */
  function Slice(s: seq<byte>, lo: nat, hi: nat): (r: seq<byte>)
    requires lo <= hi
    ensures |r| == (if hi <= |s| then hi else |s|) - (if lo <= |s| then lo else |s|)
    ensures forall i :: 0 <= i < |r| ==> r[i] == s[lo + i]
  {
    var a := if lo <= |s| then lo else |s|;
    var b := if hi <= |s| then hi else |s|;
    s[a..b]
  }

  /** Chunk `k` of a file's data: bytes [k * blockSize, (k + 1) * blockSize), clamped to the data. */
  function Chunk(data: seq<byte>, blockSize: nat, k: nat): seq<byte>
  {
    Slice(data, k * blockSize, k * blockSize + blockSize)
  }

  /** A byte-string slice `s[:n]`: the first n bytes, or all of s when it is shorter. */
  function Prefix(s: seq<byte>, n: nat): seq<byte>
  {
    if n <= |s| then s[..n] else s
  }

  /** The concatenation `b''.join(parts)`. */
  function Concat(parts: seq<seq<byte>>): seq<byte>
  {
    if parts == [] then [] else Concat(parts[..|parts| - 1]) + parts[|parts| - 1]
  }

  // ---------------------------------------------------------------------------
  // Status counting and the first-fit allocation rule
  // ---------------------------------------------------------------------------

  function Count(st: seq<BlockStatus>, s: BlockStatus): (n: nat)
    ensures n <= |st|
  {
    if st == [] then 0 else Count(st[..|st| - 1], s) + (if st[|st| - 1] == s then 1 else 0)
  }

  /** Counting one more entry of a table adds one to that entry's status only. */
  lemma CountStep(st: seq<BlockStatus>, i: nat)
    requires i < |st|
    ensures forall s :: Count(st[..i + 1], s) == Count(st[..i], s) + (if st[i] == s then 1 else 0)
  {
    assert st[..i + 1][..i] == st[..i];
  }

  /** The indices whose status is `s`, in ascending order. */
  function IndicesWith(st: seq<BlockStatus>, s: BlockStatus): seq<int>
  {
    if st == [] then []
    else IndicesWith(st[..|st| - 1], s) + (if st[|st| - 1] == s then [|st| - 1] else [])
  }

  predicate Ascending(s: seq<int>)
  {
    forall a, b :: 0 <= a < b < |s| ==> s[a] < s[b]
  }

  /** What `get_free_blocks(count)` answers: the `count` lowest FREE indices, or nothing. */
  function FirstFit(st: seq<BlockStatus>, count: int): seq<int>
  {
    var free := IndicesWith(st, Free);
    if 0 < count <= |free| then free[..count] else []
  }

  /** Every status table splits into its free, used and corrupted blocks. */
  lemma {:induction false} CountPartition(st: seq<BlockStatus>)
    ensures Count(st, Free) + Count(st, Used) + Count(st, Corrupted) == |st|
  {
    if st != [] {
      CountPartition(st[..|st| - 1]);
    }
  }

  /** `IndicesWith` lists exactly the indices with that status, ascending, one per counted block. */
  lemma {:induction false} IndicesWithSpec(st: seq<BlockStatus>, s: BlockStatus)
    ensures var r := IndicesWith(st, s);
      && |r| == Count(st, s)
      && Ascending(r)
      && (forall k :: 0 <= k < |r| ==> 0 <= r[k] < |st| && st[r[k]] == s)
      && (forall i :: 0 <= i < |st| && st[i] == s ==> i in r)
  {
    if st != [] {
      var n := |st| - 1;
      var init := st[..n];
      IndicesWithSpec(init, s);
      var r0 := IndicesWith(init, s);
      var r := r0 + (if st[n] == s then [n] else []);
      assert IndicesWith(st, s) == r;
      forall k | 0 <= k < |r|
        ensures 0 <= r[k] < |st| && st[r[k]] == s
      {
        if k < |r0| {
          assert init[r0[k]] == st[r0[k]];
        }
      }
      forall a, b | 0 <= a < b < |r|
        ensures r[a] < r[b]
      {
        if b >= |r0| {
          assert r[a] == r0[a] && r0[a] < |init|;
        }
      }
      forall i | 0 <= i < |st| && st[i] == s
        ensures i in r
      {
        if i < n {
          assert init[i] == st[i];
          assert i in r0;
        } else {
          assert r[|r| - 1] == i;
        }
      }
    }
  }

  /** Scanning a prefix of the table lists a prefix of the indices the whole table lists. */
  lemma {:induction false} IndicesWithPrefix(st: seq<BlockStatus>, m: nat, s: BlockStatus)
    requires m <= |st|
    ensures var p := IndicesWith(st[..m], s);
      |p| <= |IndicesWith(st, s)| && IndicesWith(st, s)[..|p|] == p
    decreases |st| - m
  {
    if m < |st| {
      assert st[..m + 1][..m] == st[..m];
      IndicesWithPrefix(st, m + 1, s);
    } else {
      assert st[..m] == st;
    }
  }

  /** The first-fit rule: exactly `count` ascending FREE indices, the lowest ones, or `[]` when there are too few. */
  lemma FirstFitSpec(st: seq<BlockStatus>, count: int)
    ensures var r := FirstFit(st, count);
      && (r == [] <==> count <= 0 || Count(st, Free) < count)
      && (r != [] ==> |r| == count)
      && Ascending(r)
      && (forall k :: 0 <= k < |r| ==> 0 <= r[k] < |st| && st[r[k]] == Free)
      && (forall i :: 0 <= i < |st| && st[i] == Free && r != [] && i <= r[|r| - 1] ==> i in r)
  {
    var free := IndicesWith(st, Free);
    IndicesWithSpec(st, Free);
    var r := FirstFit(st, count);
    if r != [] {
      forall i | 0 <= i < |st| && st[i] == Free && i <= r[|r| - 1]
        ensures i in r
      {
        var j :| 0 <= j < |free| && free[j] == i;
        assert r[j] == i;
      }
    }
  }

  /** Allocating for a file succeeds exactly when the file is non-empty and enough blocks are FREE. */
  lemma AllocationSucceeds(st: seq<BlockStatus>, size: nat, blockSize: nat)
    requires blockSize > 0
    ensures FirstFit(st, BlocksNeeded(size, blockSize)) != [] <==>
      0 < size && BlocksNeeded(size, blockSize) <= Count(st, Free)
  {
    FirstFitSpec(st, BlocksNeeded(size, blockSize));
  }

  /** The status table with every index of `c` set to `v`. */
  function Assign(st: seq<BlockStatus>, c: seq<int>, v: BlockStatus): (r: seq<BlockStatus>)
    ensures |r| == |st|
  {
    seq(|st|, i requires 0 <= i < |st| => if i in c then v else st[i])
  }

  /** Changing one status moves one block from its old class to its new one. */
  lemma {:induction false} CountUpdate(st: seq<BlockStatus>, i: nat, v: BlockStatus, s: BlockStatus)
    requires i < |st|
    ensures Count(st[i := v], s) ==
      Count(st, s) - (if st[i] == s then 1 else 0) + (if v == s then 1 else 0)
  {
    var n := |st| - 1;
    if i < n {
      assert st[i := v][..n] == st[..n][i := v];
      CountUpdate(st[..n], i, v, s);
    } else {
      assert st[i := v][..n] == st[..n];
    }
  }

  /**
   * Moving the distinct blocks `c`, all in status `from`, to status `to`
   * takes |c| blocks out of `from`, adds |c| to `to` and leaves the third class alone.
   */
  lemma {:induction false} AssignCounts(st: seq<BlockStatus>, c: seq<int>, from: BlockStatus, to: BlockStatus)
    requires from != to
    requires Ascending(c)
    requires forall k :: 0 <= k < |c| ==> 0 <= c[k] < |st| && st[c[k]] == from
    ensures Count(Assign(st, c, to), from) == Count(st, from) - |c|
    ensures Count(Assign(st, c, to), to) == Count(st, to) + |c|
    ensures forall s :: s != from && s != to ==> Count(Assign(st, c, to), s) == Count(st, s)
  {
    if c != [] {
      var n := |c| - 1;
      var x := c[n];
      AssignCounts(st, c[..n], from, to);
      var prev := Assign(st, c[..n], to);
      assert x !in c[..n];
      assert prev[x] == from;
      assert Assign(st, c, to) == prev[x := to] by {
        forall i | 0 <= i < |st|
          ensures Assign(st, c, to)[i] == prev[x := to][i]
        {
          assert c == c[..n] + [x];
        }
      }
      forall s
        ensures Count(prev[x := to], s) ==
          Count(prev, s) - (if from == s then 1 else 0) + (if to == s then 1 else 0)
      {
        CountUpdate(prev, x, to, s);
      }
    } else {
      assert Assign(st, c, to) == st;
    }
  }

  // ---------------------------------------------------------------------------
  // Reassembling a file from its blocks
  // ---------------------------------------------------------------------------

  /** The buffers of blocks `refs`, in file order. */
  function Gather(contents: seq<seq<byte>>, refs: seq<int>): seq<seq<byte>>
    requires forall k :: 0 <= k < |refs| ==> 0 <= refs[k] < |contents|
  {
    seq(|refs|, k requires 0 <= k < |refs| => contents[refs[k]])
  }

  /**
   * What reading an inode yields: its blocks joined and cut to its size, or
   * nothing when one of its block numbers is out of range.
   */
  function InodeData(contents: seq<seq<byte>>, inode: Inode): Option<seq<byte>>
  {
    if forall k :: 0 <= k < |inode.blocks| ==> 0 <= inode.blocks[k] < |contents| then
      Some(Prefix(Concat(Gather(contents, inode.blocks)), inode.size))
    else
      None
  }

  /** The buffers `create_file` writes: chunk k of the data, zero-padded to a whole block. */
  function PaddedChunks(data: seq<byte>, blockSize: nat, m: nat): seq<seq<byte>>
  {
    seq(m, k requires 0 <= k < m => Padded(Chunk(data, blockSize, k), blockSize))
  }

  lemma MulStep(n: nat, b: nat)
    ensures (n + 1) * b == n * b + b
  {
  }

  /** The padded chunks are joined one block at a time. */
  lemma PaddedChunksSnoc(data: seq<byte>, blockSize: nat, n: nat)
    ensures Concat(PaddedChunks(data, blockSize, n + 1)) ==
      Concat(PaddedChunks(data, blockSize, n)) + Padded(Chunk(data, blockSize, n), blockSize)
  {
    var parts := PaddedChunks(data, blockSize, n + 1);
    assert parts[..n] == PaddedChunks(data, blockSize, n);
  }

  /** Joining the first m padded chunks gives m whole blocks that start with the data itself. */
  lemma {:induction false} ChunksReassemble(data: seq<byte>, blockSize: nat, m: nat)
    requires blockSize > 0
    ensures |Concat(PaddedChunks(data, blockSize, m))| == m * blockSize
    ensures forall i :: 0 <= i < |Concat(PaddedChunks(data, blockSize, m))| && i < |data| ==>
      Concat(PaddedChunks(data, blockSize, m))[i] == data[i]
  {
    if m > 0 {
      var n := m - 1;
      ChunksReassemble(data, blockSize, n);
      PaddedChunksSnoc(data, blockSize, n);
      var head := Concat(PaddedChunks(data, blockSize, n));
      var base := n * blockSize;
      assert |head| == base;
      var last := Padded(Chunk(data, blockSize, n), blockSize);
      var whole := head + last;
      assert Concat(PaddedChunks(data, blockSize, m)) == whole;
      MulStep(n, blockSize);
      forall i | 0 <= i < |whole| && i < |data|
        ensures whole[i] == data[i]
      {
        if i >= base {
          PaddedSliceAt(data, base, blockSize, i);
        }
      }
    }
  }

  /** Byte i of the data sits at offset i - lo of the padded slice starting at lo. */
  lemma PaddedSliceAt(data: seq<byte>, lo: nat, blockSize: nat, i: nat)
    requires lo <= i < lo + blockSize && i < |data|
    ensures Padded(Slice(data, lo, lo + blockSize), blockSize)[i - lo] == data[i]
  {
    var ch := Slice(data, lo, lo + blockSize);
    assert ch[i - lo] == data[i];
  }

  /**
   * The round trip of `create_file` then `read_file`: when blocks `alloc`
   * hold the padded chunks of `data`, and there are exactly as many of them
   * as the data needs, the inode over them reads back as `data`.
   */
  lemma ReadBackWritten(contents: seq<seq<byte>>, alloc: seq<int>, data: seq<byte>, blockSize: nat, id: int, sum: Digest)
    requires blockSize > 0
    requires |alloc| == BlocksNeeded(|data|, blockSize)
    requires forall k :: 0 <= k < |alloc| ==>
      0 <= alloc[k] < |contents| && contents[alloc[k]] == Padded(Chunk(data, blockSize, k), blockSize)
    ensures InodeData(contents, Inode(id, |data|, alloc, sum)) == Some(data)
  {
    var m := |alloc|;
    BlocksNeededBounds(|data|, blockSize);
    assert Gather(contents, alloc) == PaddedChunks(data, blockSize, m);
    ChunksReassemble(data, blockSize, m);
    var joined := Concat(PaddedChunks(data, blockSize, m));
    assert Prefix(joined, |data|) == data;
  }

  // ---------------------------------------------------------------------------
  // The inode table
  // ---------------------------------------------------------------------------

  /**
   * An inode filed under its own id, below the id counter, with as many
   * blocks as its size needs, all in range and none FREE.
   */
  ghost predicate InodeFits(id: int, inode: Inode, next: int, blockSize: nat, st: seq<BlockStatus>)
  {
    && inode.id == id
    && id < next
    && blockSize > 0
    && |inode.blocks| == BlocksNeeded(inode.size, blockSize)
    && (forall k :: 0 <= k < |inode.blocks| ==> 0 <= inode.blocks[k] < |st| && st[inode.blocks[k]] != Free)
  }

  ghost predicate InodeTableOk(inodes: map<int, Inode>, next: int, blockSize: nat, st: seq<BlockStatus>)
  {
    forall id :: id in inodes ==> InodeFits(id, inodes[id], next, blockSize, st)
  }

  /** A status change that frees no block keeps the inode table sound. */
  lemma InodeTableKeeps(inodes: map<int, Inode>, next: int, blockSize: nat, st: seq<BlockStatus>, st': seq<BlockStatus>)
    requires InodeTableOk(inodes, next, blockSize, st)
    requires |st'| == |st|
    requires forall i :: 0 <= i < |st| && st[i] != Free ==> st'[i] != Free
    ensures InodeTableOk(inodes, next, blockSize, st')
  {
    forall id | id in inodes
      ensures InodeFits(id, inodes[id], next, blockSize, st')
    {
      assert InodeFits(id, inodes[id], next, blockSize, st);
    }
  }

  /**
   * Committing a new inode under the id counter, over blocks that are now
   * USED, keeps the table sound once the counter moves past it.
   */
  lemma InodeTableCommit(inodes: map<int, Inode>, next: int, blockSize: nat, st: seq<BlockStatus>, inode: Inode)
    requires InodeTableOk(inodes, next, blockSize, st)
    requires InodeFits(next, inode, next + 1, blockSize, st)
    ensures next !in inodes
    ensures InodeTableOk(inodes[next := inode], next + 1, blockSize, st)
  {
    var grown := inodes[next := inode];
    forall id | id in grown
      ensures InodeFits(id, grown[id], next + 1, blockSize, st)
    {
      if id != next {
        assert InodeFits(id, inodes[id], next, blockSize, st);
      }
    }
  }

  // ---------------------------------------------------------------------------
  // The device
  // ---------------------------------------------------------------------------

  class VirtualDisk {
    const blockSize: nat
    const totalBlocks: nat
    /** Block buffers, indexed by block number. */
    const blocks: array<seq<byte>>
    /** Block statuses, indexed like `blocks`. */
    const status: array<BlockStatus>
    var inodes: map<int, Inode>
    var nextInodeId: int
    /** The content checksum (SHA-256 in hex); only its determinism is relied on. */
    const calculateChecksum: seq<byte> -> Digest

    /**
     * Both arrays span the whole device, every buffer is one block long, and
     * the inode table fits the status table.
     */
    ghost predicate Valid()
      reads this, blocks, status
    {
      && blockSize > 0
      && blocks.Length == totalBlocks
      && status.Length == totalBlocks
      && (forall i :: 0 <= i < blocks.Length ==> |blocks[i]| == blockSize)
      && InodeTableOk(inodes, nextInodeId, blockSize, status[..])
    }

    /**
     * A device of sizeMb megabytes in blocks of blockSizeKb kilobytes (a zero
     * block size would divide by zero): every block zero-filled and FREE, no
     * inodes, and the first inode id 1.
     */
    constructor (sizeMb: nat, blockSizeKb: nat, checksum: seq<byte> -> Digest)
      requires blockSizeKb > 0
      ensures Valid() && fresh(blocks) && fresh(status)
      ensures blockSize == blockSizeKb * 1024
      ensures totalBlocks == DeviceBlocks(sizeMb, blockSize)
      ensures forall i :: 0 <= i < totalBlocks ==> blocks[i] == Zeros(blockSize) && status[i] == Free
      ensures inodes == map[] && nextInodeId == 1
      ensures calculateChecksum == checksum
    {
      var size := blockSizeKb * 1024;
      var n := DeviceBlocks(sizeMb, size);
      blockSize := size;
      totalBlocks := n;
      blocks := new seq<byte>[n](_ => Zeros(size));
      status := new BlockStatus[n](_ => Free);
      inodes := map[];
      nextInodeId := 1;
      calculateChecksum := checksum;
    }

    /**
     * Out of range: false, nothing changes.  In range: the block holds `data`
     * cut and zero-padded to one block and is USED (even if it was
     * CORRUPTED); no other block or status changes.
     */
    method WriteBlock(blockNum: int, data: seq<byte>) returns (ok: bool)
      requires Valid()
      modifies blocks, status
      ensures Valid()
      ensures ok <==> 0 <= blockNum < totalBlocks
      ensures ok ==> blocks[..] == old(blocks[..])[blockNum := Padded(data, blockSize)]
      ensures ok ==> status[..] == old(status[..])[blockNum := Used]
      ensures !ok ==> blocks[..] == old(blocks[..]) && status[..] == old(status[..])
    {
      if blockNum < 0 || blockNum >= totalBlocks {
        return false;
      }
      var kept := if |data| > blockSize then data[..blockSize] else data;
      blocks[blockNum] := kept + Zeros(blockSize - |kept|);
      status[blockNum] := Used;
      InodeTableKeeps(inodes, nextInodeId, blockSize, old(status[..]), status[..]);
      return true;
    }

    /** The whole buffer of an in-range block, whatever its status; nothing out of range. */
    function ReadBlock(blockNum: int): (r: Option<seq<byte>>)
      requires Valid()
      reads this, blocks, status
      ensures r.Some? <==> 0 <= blockNum < totalBlocks
      ensures r.Some? ==> r.value == blocks[blockNum] && |r.value| == blockSize
    {
      if blockNum < 0 || blockNum >= totalBlocks then None else Some(blocks[blockNum])
    }

    /** Flags an in-range block CORRUPTED and is a no-op otherwise; never touches a buffer. */
    method MarkCorrupted(blockNum: int)
      requires Valid()
      modifies status
      ensures Valid()
      ensures status[..] ==
        if 0 <= blockNum < totalBlocks then old(status[..])[blockNum := Corrupted] else old(status[..])
    {
      if 0 <= blockNum < totalBlocks {
        status[blockNum] := Corrupted;
        InodeTableKeeps(inodes, nextInodeId, blockSize, old(status[..]), status[..]);
      }
    }

    /** Registers `inode` under the next inode id and advances the counter. */
    method AddInode(inode: Inode)
      requires Valid()
      requires InodeTableOk(inodes[nextInodeId := inode], nextInodeId + 1, blockSize, status[..])
      modifies this`inodes, this`nextInodeId
      ensures Valid()
      ensures inodes == old(inodes)[old(nextInodeId) := inode] && nextInodeId == old(nextInodeId) + 1
    {
      inodes := inodes[nextInodeId := inode];
      nextInodeId := nextInodeId + 1;
    }

    /** First-fit scan for `count` FREE blocks; stops as soon as it has them. */
    method GetFreeBlocks(count: int) returns (r: seq<int>)
      requires Valid()
      ensures r == FirstFit(status[..], count)
    {
      var found: seq<int> := [];
      var i := 0;
      while i < status.Length
        invariant 0 <= i <= status.Length
        invariant found == IndicesWith(status[..i], Free)
        invariant count > 0 ==> |found| < count
      {
        assert status[..i + 1][..i] == status[..i];
        if status[i] == Free {
          found := found + [i];
          if |found| == count {
            IndicesWithPrefix(status[..], i + 1, Free);
            return found;
          }
        }
        i := i + 1;
      }
      assert status[..i] == status[..];
      r := if |found| == count then found else [];
    }

    /** The status tallies add up to the device size; one inode count per table entry. */
    function GetDiskStats(): (r: DiskStats)
      requires Valid()
      reads this, blocks, status
      ensures r.totalBlocks == totalBlocks
      ensures r.freeBlocks + r.usedBlocks + r.corruptedBlocks == r.totalBlocks
      ensures r.freeBlocks == Count(status[..], Free) && r.usedBlocks == Count(status[..], Used)
      ensures r.corruptedBlocks == Count(status[..], Corrupted)
      ensures r.totalInodes == |inodes|
    {
      CountPartition(status[..]);
      DiskStats(totalBlocks, Count(status[..], Free), Count(status[..], Used),
                Count(status[..], Corrupted), |inodes|)
    }
  }
}
