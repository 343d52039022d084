/** The LRU read-ahead block cache and the disk below it (ext4-view-rs/src/block_cache.rs). */
module BlockCaching {
  import opened Bytes
  import opened Wrappers
  import opened Numbers

  /** The underlying storage: an immutable byte at every offset. */
  type Disk = nat -> byte

  /** Entry for a single block in the cache. */
  datatype CacheEntry = CacheEntry(blockIndex: nat, data: seq<byte>)

  /** The byte offset of a block. */
  function Offset(blocks: nat, blockSize: nat): (n: nat) {
    blocks * blockSize
  }

  function Block(disk: Disk, blockSize: nat, index: nat): (s: seq<byte>)
    ensures |s| == blockSize
  {
    seq<byte>(blockSize, j requires 0 <= j < blockSize => disk(Offset(index, blockSize) + j))
  }

  // ---------------------------------------------------------------------
  // The cache as a list

  /** The first entry for a block, as `position` finds it. */
  function Position(entries: seq<CacheEntry>, index: nat): (r: Option<nat>)
    ensures r.Some? ==> r.value < |entries| && entries[r.value].blockIndex == index
                        && forall i :: 0 <= i < r.value ==> entries[i].blockIndex != index
    ensures r.None? ==> forall i :: 0 <= i < |entries| ==> entries[i].blockIndex != index
  {
    if entries == [] then None
    else if entries[0].blockIndex == index then Some(0)
    else match Position(entries[1..], index)
      case None => None
      case Some(k) => Some(k + 1)
  }

  /** The entries for `count` consecutive blocks as they are on the disk. */
  function Group(disk: Disk, blockSize: nat, index: nat, count: nat): (s: seq<CacheEntry>)
    ensures |s| == count
    ensures forall i :: 0 <= i < count ==> s[i] == CacheEntry(index + i, Block(disk, blockSize, index + i))
  {
    seq(count, i requires 0 <= i < count => CacheEntry(index + i, Block(disk, blockSize, index + i)))
  }

  function ToFront(entries: seq<CacheEntry>, k: nat): (s: seq<CacheEntry>)
    requires k < |entries|
    ensures |s| == |entries|
  {
    [entries[k]] + entries[..k] + entries[k + 1..]
  }

  function Min(a: nat, b: nat): (m: nat) {
    if a < b then a else b
  }

  /** The geometry of one cache: block size, blocks per read, blocks in the filesystem. */
  datatype Geometry = Geometry(blockSize: nat, maxBlocksPerRead: nat, numFsBlocks: nat) {
    predicate Valid() {
      blockSize > 0 && maxBlocksPerRead > 0 && numFsBlocks < WORD_LIMIT
    }

    /** num_blocks_to_read: the read-ahead, clamped to the end of the filesystem. */
    function NumBlocksToRead(index: nat): (n: nat)
      requires Valid() && index < numFsBlocks
      ensures 1 <= n <= maxBlocksPerRead && index + n <= numFsBlocks
      ensures n < maxBlocksPerRead ==> index + n == numFsBlocks
    {
      var saturated := if index + maxBlocksPerRead < WORD_LIMIT then index + maxBlocksPerRead
                       else WORD_LIMIT - 1;
      (if saturated <= numFsBlocks then saturated else numFsBlocks) - index
    }
  }

  /** The list after a request for `index`; a miss is only reflected when its read succeeds. */
  function Requested(disk: Disk, g: Geometry, entries: seq<CacheEntry>, index: nat, readOk: bool): (s: seq<CacheEntry>)
    requires g.Valid() && index < g.numFsBlocks && g.maxBlocksPerRead <= |entries|
    ensures |s| == |entries|
  {
    match Position(entries, index)
    case Some(k) => ToFront(entries, k)
    case None =>
      var n := g.NumBlocksToRead(index);
      if readOk then Group(disk, g.blockSize, index, n) + entries[..|entries| - n] else entries
  }

  /** Every entry with a nonzero index holds that block of the disk. */
  ghost predicate Coherent(disk: Disk, g: Geometry, entries: seq<CacheEntry>) {
    forall i :: 0 <= i < |entries| && entries[i].blockIndex != 0 ==>
      entries[i].blockIndex < g.numFsBlocks
      && entries[i].data == Block(disk, g.blockSize, entries[i].blockIndex)
  }

  function Fresh(g: Geometry, count: nat): (s: seq<CacheEntry>)
    ensures |s| == count && forall i :: 0 <= i < count ==> s[i] == CacheEntry(0, Zeros(g.blockSize))
  {
    seq(count, i => CacheEntry(0, Zeros(g.blockSize)))
  }

  /** A request keeps the cache coherent and puts the requested block at the front. */
  lemma RequestCoherent(disk: Disk, g: Geometry, entries: seq<CacheEntry>, index: nat, readOk: bool)
    requires g.Valid() && index < g.numFsBlocks && g.maxBlocksPerRead <= |entries|
    requires Coherent(disk, g, entries)
    ensures Coherent(disk, g, Requested(disk, g, entries, index, readOk))
    ensures readOk || Position(entries, index).Some? ==>
              Requested(disk, g, entries, index, readOk)[0].blockIndex == index
  {
    hide Block;
    match Position(entries, index)
    case Some(k) =>
      var s := ToFront(entries, k);
      forall i | 0 <= i < |s|
        ensures s[i] == (if i == 0 then entries[k] else if i <= k then entries[i - 1] else entries[i])
      {
      }
    case None =>
  }

  /** One request in a run: the block, and whether the disk read succeeds if one is needed. */
  datatype Request = Request(index: nat, readOk: bool)

  predicate Legal(g: Geometry, requests: seq<Request>) {
    forall i :: 0 <= i < |requests| ==> requests[i].index < g.numFsBlocks
  }

  /** The list after a whole run of requests. */
  function AfterAll(disk: Disk, g: Geometry, entries: seq<CacheEntry>, requests: seq<Request>): (s: seq<CacheEntry>)
    requires g.Valid() && g.maxBlocksPerRead <= |entries| && Legal(g, requests)
    ensures |s| == |entries|
  {
    if requests == [] then entries
    else
      var before := AfterAll(disk, g, entries, requests[..|requests| - 1]);
      var last := requests[|requests| - 1];
      Requested(disk, g, before, last.index, last.readOk)
  }

  /**
   Theorem: after any mix of hits, misses and failed reads, starting from a new
   cache, every entry with a nonzero index is the disk's block.
   */
  lemma {:induction false} RunCoherent(disk: Disk, g: Geometry, numEntries: nat, requests: seq<Request>)
    requires g.Valid() && g.maxBlocksPerRead <= numEntries && Legal(g, requests)
    ensures Coherent(disk, g, AfterAll(disk, g, Fresh(g, numEntries), requests))
    decreases |requests|
  {
    if requests != [] {
      var last := requests[|requests| - 1];
      RunCoherent(disk, g, numEntries, requests[..|requests| - 1]);
      RequestCoherent(disk, g, AfterAll(disk, g, Fresh(g, numEntries), requests[..|requests| - 1]), last.index, last.readOk);
    }
  }

  // ---------------------------------------------------------------------
  // The reader and the cache as objects

  /** The byte source. Its k-th read fails, after writing some bytes, when k is in `faults`. */
  class Reader {
    const disk: Disk
    const faults: map<nat, seq<byte>>
    var readCount: nat

    constructor (disk: Disk, faults: map<nat, seq<byte>>)
      ensures this.disk == disk && this.faults == faults && readCount == 0
    {
      this.disk := disk;
      this.faults := faults;
      readCount := 0;
    }

    /** Reads `len` bytes at `start` into the front of `buf`. */
    method Read(start: nat, buf: array<byte>, len: nat) returns (ok: bool)
      requires len <= buf.Length
      modifies this, buf
      ensures readCount == old(readCount) + 1
      ensures ok <==> old(readCount) !in faults
      ensures ok ==> forall j :: 0 <= j < len ==> buf[j] == disk(start + j)
    {
      ok := readCount !in faults;
      var partial := if ok then [] else faults[readCount];
      readCount := readCount + 1;
      var i := 0;
      while i < len
        invariant 0 <= i <= len
        invariant ok ==> forall j :: 0 <= j < i ==> buf[j] == disk(start + j)
        invariant readCount == old(readCount) + 1
      {
        if ok {
          buf[i] := disk(start + i);
        } else if i < |partial| {
          buf[i] := partial[i];
        }
        i := i + 1;
      }
    }
  }

  class BlockCache {
    const geometry: Geometry
    const readBuf: array<byte>
    var entries: seq<CacheEntry>

    ghost predicate Valid()
      reads this
    {
      && geometry.Valid()
      && readBuf.Length == Offset(geometry.maxBlocksPerRead, geometry.blockSize)
      && geometry.maxBlocksPerRead <= |entries|
      && forall i :: 0 <= i < |entries| ==> |entries[i].data| == geometry.blockSize
    }

    /** with_opts: all entries allocated up front, tagged as block zero. */
    constructor (geometry: Geometry, numEntries: nat)
      requires geometry.Valid() && geometry.maxBlocksPerRead <= numEntries
      ensures this.geometry == geometry && entries == Fresh(geometry, numEntries)
      ensures Valid() && fresh(readBuf)
    {
      this.geometry := geometry;
      readBuf := new byte[geometry.maxBlocksPerRead * geometry.blockSize];
      entries := Fresh(geometry, numEntries);
    }

    /** insert_block: the entry at the back is refilled and moved to the front. */
    method InsertBlock(blockIndex: nat, blockWithinReadBuf: nat)
      requires Valid() && blockWithinReadBuf < geometry.maxBlocksPerRead
      modifies this`entries
      ensures Valid()
      ensures var start := Offset(blockWithinReadBuf, geometry.blockSize);
              && start + geometry.blockSize <= readBuf.Length
              && entries == [CacheEntry(blockIndex, readBuf[start..start + geometry.blockSize])]
                            + old(entries)[..|old(entries)| - 1]
    {
      var start := Offset(blockWithinReadBuf, geometry.blockSize);
      var end := start + geometry.blockSize;
      MulMono(blockWithinReadBuf + 1, geometry.maxBlocksPerRead, geometry.blockSize);
      var src := readBuf[start..end];
      var entry := entries[|entries| - 1];
      entries := entries[..|entries| - 1];
      entry := entry.(blockIndex := blockIndex, data := src);
      entries := [entry] + entries;
    }

    /** get_or_insert_blocks: the front entry's data, or nothing when the read failed. */
    method GetOrInsertBlocks(blockIndex: nat, reader: Reader) returns (r: Option<seq<byte>>)
      requires Valid() && blockIndex < geometry.numFsBlocks
      modifies this`entries, readBuf, reader
      ensures Valid()
      ensures var hit := Position(old(entries), blockIndex).Some?;
              var readOk := blockIndex * geometry.blockSize < WORD_LIMIT && old(reader.readCount) !in reader.faults;
              && entries == Requested(reader.disk, geometry, old(entries), blockIndex, readOk)
              && r == (if hit || readOk then Some(entries[0].data) else None)
    {
      hide Block, Group;
      var index := FindEntry(blockIndex);
      if index.Some? {
        if index.value != 0 {
          var entry := entries[index.value];
          entries := entries[..index.value] + entries[index.value + 1..];
          entries := [entry] + entries;
        }
        assert entries == ToFront(old(entries), index.value);
        return Some(entries[0].data);
      }
      var numBlocks := geometry.NumBlocksToRead(blockIndex);
      var numBytes := numBlocks * geometry.blockSize;
      MulMono(numBlocks, geometry.maxBlocksPerRead, geometry.blockSize);
      var startByte := blockIndex * geometry.blockSize;
      if startByte >= WORD_LIMIT {
        return None;
      }
      var ok := reader.Read(startByte, readBuf, numBytes);
      if !ok {
        return None;
      }
      InsertGroup(blockIndex, numBlocks, reader.disk);
      r := Some(entries[0].data);
    }

    /** The read buffer's blocks are inserted back to front, so the requested one ends up first. */
    method InsertGroup(blockIndex: nat, numBlocks: nat, ghost disk: Disk)
      requires Valid() && numBlocks <= geometry.maxBlocksPerRead
      requires Offset(numBlocks, geometry.blockSize) <= readBuf.Length
      requires forall j :: 0 <= j < Offset(numBlocks, geometry.blockSize) ==>
                 readBuf[j] == disk(Offset(blockIndex, geometry.blockSize) + j)
      modifies this`entries
      ensures Valid()
      ensures entries == Group(disk, geometry.blockSize, blockIndex, numBlocks)
                         + old(entries)[..|old(entries)| - numBlocks]
    {
      hide Block, Group, Offset;
      ghost var before := entries;
      assert Group(disk, geometry.blockSize, blockIndex + numBlocks, 0) == [];
      var i := numBlocks;
      while i > 0
        invariant 0 <= i <= numBlocks
        invariant Valid()
        invariant entries == Group(disk, geometry.blockSize, blockIndex + i, numBlocks - i)
                             + before[..|before| - (numBlocks - i)]
      {
        i := i - 1;
        InsertBlock(blockIndex + i, i);
        BufferedBlock(disk, geometry.blockSize, blockIndex, i, numBlocks, readBuf[..]);
        GroupCons(disk, geometry.blockSize, blockIndex + i, numBlocks - i);
        Shift(entries[0], Group(disk, geometry.blockSize, blockIndex + i + 1, numBlocks - i - 1), before,
              |before| - (numBlocks - i - 1));
      }
    }

    method FindEntry(blockIndex: nat) returns (r: Option<nat>)
      ensures r == Position(entries, blockIndex)
    {
      var i := 0;
      while i < |entries|
        invariant 0 <= i <= |entries|
        invariant forall k :: 0 <= k < i ==> entries[k].blockIndex != blockIndex
      {
        if entries[i].blockIndex == blockIndex {
          return Some(i);
        }
        i := i + 1;
      }
      r := None;
    }
  }

  lemma MulMono(a: nat, b: nat, c: nat)
    requires a <= b
    ensures a * c <= b * c
  {
  }

  /** Inserting at the front and dropping the back, on a list made of two parts. */
  lemma Shift<T>(x: T, group: seq<T>, rest: seq<T>, k: nat)
    requires 0 < k <= |rest|
    ensures [x] + (group + rest[..k])[..|group| + k - 1] == ([x] + group) + rest[..k - 1]
  {
  }

  lemma GroupCons(disk: Disk, blockSize: nat, index: nat, count: nat)
    requires count > 0
    ensures Group(disk, blockSize, index, count)
         == [CacheEntry(index, Block(disk, blockSize, index))] + Group(disk, blockSize, index + 1, count - 1)
  {
  }

  /** The i-th block of a contiguous read is the i-th block after the first. */
  lemma BufferedBlock(disk: Disk, blockSize: nat, index: nat, i: nat, numBlocks: nat, buf: seq<byte>)
    requires i < numBlocks && Offset(numBlocks, blockSize) <= |buf|
    requires forall j :: 0 <= j < Offset(numBlocks, blockSize) ==> buf[j] == disk(Offset(index, blockSize) + j)
    ensures Offset(i, blockSize) + blockSize <= |buf|
    ensures buf[Offset(i, blockSize)..Offset(i, blockSize) + blockSize] == Block(disk, blockSize, index + i)
  {
    hide Offset;
    OffsetSums(index, i, numBlocks, blockSize);
    var at := Offset(i, blockSize);
    var got, want := buf[at..at + blockSize], Block(disk, blockSize, index + i);
    forall j | 0 <= j < blockSize
      ensures got[j] == want[j]
    {
      assert got[j] == buf[at + j];
    }
  }

  lemma OffsetSums(index: nat, i: nat, n: nat, blockSize: nat)
    requires i < n
    ensures Offset(index + i, blockSize) == Offset(index, blockSize) + Offset(i, blockSize)
    ensures Offset(i, blockSize) + blockSize <= Offset(n, blockSize)
  {
    MulMono(i + 1, n, blockSize);
  }
}
