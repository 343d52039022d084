/** Reading files: block reads through the journal map and the cache, and the file cursor
    (ext4-view-rs/src/lib.rs and file.rs). */
module FileReading {
  import opened Bytes
  import opened BlockCaching
  import opened BlockZero
  import opened Wrappers
  import opened Numbers

  datatype Error = BlockRead | Io

  type Result<T> = Fallible<T, Error>

  /** The first bytes of the filesystem that may not be read as a block. */
  const RESERVED: nat := 1024

  /** Journal::map_block_index. */
  function MapBlockIndex(journal: map<nat, nat>, index: nat): (r: nat) {
    if index in journal then journal[index] else index
  }

  /** A stretch of the disk. */
  ghost function DiskBytes(disk: Disk, at: nat, len: nat): (s: seq<byte>)
    ensures |s| == len
  {
    seq<byte>(len, i requires 0 <= i < len => disk(at + i))
  }

  lemma BlockBytes(disk: Disk, blockSize: nat, index: nat, offset: nat, len: nat)
    requires offset + len <= blockSize
    ensures Block(disk, blockSize, index)[offset..offset + len] == DiskBytes(disk, index * blockSize + offset, len)
  {
    var got, want := Block(disk, blockSize, index)[offset..offset + len], DiskBytes(disk, index * blockSize + offset, len);
    forall i | 0 <= i < len
      ensures got[i] == want[i]
    {
      assert Offset(index, blockSize) + (offset + i) == index * blockSize + offset + i;
    }
  }

  lemma BlockByte(disk: Disk, blockSize: nat, index: nat, i: nat)
    requires i < blockSize
    ensures Block(disk, blockSize, index)[i] == disk(index * blockSize + i)
  {
    assert Offset(index, blockSize) + i == index * blockSize + i;
  }

  /** Ext4Inner: journal map, cache and reader. */
  class Ext4 {
    var journal: map<nat, nat>
    const cache: BlockCache
    const reader: Reader

    /** The cache is keyed by mapped indices, so the journal map plays no part in its coherence. */
    ghost predicate Valid()
      reads this, cache, reader
      ensures Valid() ==> cache.geometry.Valid()
    {
      && cache.Valid()
      && Coherent(reader.disk, cache.geometry, cache.entries)
      && (ZeroClean() || ZeroStale(cache.geometry, cache.entries))
    }

    /** No entry is left for block zero that does not hold that block. */
    ghost predicate ZeroClean()
      reads cache, reader
    {
      ZeroHeld(reader.disk, cache.geometry, cache.entries)
    }

    /** load, up to the journal: the map starts empty. */
    constructor (cache: BlockCache, reader: Reader)
      requires cache.Valid() && Coherent(reader.disk, cache.geometry, cache.entries)
      requires ZeroHeld(reader.disk, cache.geometry, cache.entries) || ZeroStale(cache.geometry, cache.entries)
      ensures Valid()
      ensures this.cache == cache && this.reader == reader && journal == map[]
    {
      this.cache := cache;
      this.reader := reader;
      journal := map[];
    }

    /** load, after the journal was read through this very object: the map is replaced. */
    method SetJournal(loaded: map<nat, nat>)
      requires Valid()
      modifies this`journal
      ensures Valid() && journal == loaded
      ensures cache.entries == old(cache.entries)
    {
      journal := loaded;
    }

    /** What the filesystem holds in a block, as seen through the journal. */
    ghost function BlockAt(index: nat): (s: seq<byte>)
      reads this
      ensures |s| == cache.geometry.blockSize
    {
      Block(reader.disk, cache.geometry.blockSize, MapBlockIndex(journal, index))
    }

    /** The same as read: while zeroed entries for block zero are left, that block reads as zeros. */
    ghost function SeenBlock(index: nat, clean: bool): (s: seq<byte>)
      reads this
      ensures |s| == cache.geometry.blockSize
    {
      if MapBlockIndex(journal, index) == 0 && !clean then Zeros(cache.geometry.blockSize) else BlockAt(index)
    }

    /** The bytes are the disk's, from the block that the journal has for `index`, or from that block itself. */
    ghost predicate Delivered(bytes: seq<byte>, index: nat, offset: nat, clean: bool)
      reads this
    {
      var mapped := if index in journal then journal[index] else index;
      mapped != 0 || clean ==> bytes == DiskBytes(reader.disk, mapped * cache.geometry.blockSize + offset, |bytes|)
    }

    lemma SeenDelivered(index: nat, offset: nat, len: nat, clean: bool)
      requires offset + len <= cache.geometry.blockSize
      ensures Delivered(SeenBlock(index, clean)[offset..offset + len], index, offset, clean)
    {
      BlockBytes(reader.disk, cache.geometry.blockSize, MapBlockIndex(journal, index), offset, len);
    }

    /** What a read is allowed for: blocks of the filesystem, within the block, and not its first 1024 bytes. */
    lemma ReadableExactly(index: nat, offset: nat, len: nat)
      ensures var mapped := if index in journal then journal[index] else index;
              Readable(index, offset, len) <==>
                && mapped < cache.geometry.numFsBlocks
                && offset < cache.geometry.blockSize && offset + len <= cache.geometry.blockSize
                && (mapped > 0 || offset >= 1024)
    {
    }

    /** The checks made before a read; the first 1024 bytes of the filesystem are off limits. */
    predicate Readable(index: nat, offset: nat, len: nat)
      reads this
    {
      var mapped := MapBlockIndex(journal, index);
      && !(mapped == 0 && offset < RESERVED)
      && mapped < cache.geometry.numFsBlocks
      && offset < cache.geometry.blockSize
      && offset + len <= cache.geometry.blockSize
    }

    /** read_from_block: bytes of one block copied to `dst[from..from + len]`. */
    method ReadFromBlock(originalIndex: nat, offset: nat, dst: array<byte>, from: nat, len: nat) returns (r: Result<()>)
      requires Valid()
      requires from + len <= dst.Length
      requires dst != cache.readBuf
      modifies cache`entries, cache.readBuf, reader, dst
      ensures Valid()
      ensures var mapped := MapBlockIndex(journal, originalIndex);
              var missed := Readable(originalIndex, offset, len) && Position(old(cache.entries), mapped).None?;
              var tooFar := mapped * cache.geometry.blockSize >= WORD_LIMIT;
              && (r == Err(BlockRead) <==> !Readable(originalIndex, offset, len) || (missed && tooFar))
              && (r == Err(Io) <==> missed && !tooFar && old(reader.readCount) in reader.faults)
      ensures r.Ok? ==> Delivered(dst[from..from + len], originalIndex, offset, old(ZeroClean()))
      ensures old(ZeroClean()) ==> ZeroClean()
      ensures r.Ok? ==> offset + len <= cache.geometry.blockSize
                        && dst[from..from + len] == SeenBlock(originalIndex, old(ZeroClean()))[offset..offset + len]
                        && forall i :: 0 <= i < dst.Length && !(from <= i < from + len) ==> dst[i] == old(dst[i])
      ensures r.Err? ==> dst[..] == old(dst[..])
    {
      hide Block, Requested, Delivered, DiskBytes;
      var blockIndex := MapBlockIndex(journal, originalIndex);
      if blockIndex == 0 && offset < RESERVED {
        return Err(BlockRead);
      }
      if blockIndex >= cache.geometry.numFsBlocks {
        return Err(BlockRead);
      }
      if offset >= cache.geometry.blockSize {
        return Err(BlockRead);
      }
      var readEnd := offset + len;
      if readEnd > cache.geometry.blockSize {
        return Err(BlockRead);
      }
      ghost var before := cache.entries;
      ghost var readOk := blockIndex * cache.geometry.blockSize < WORD_LIMIT
                          && reader.readCount !in reader.faults;
      var cached := cache.GetOrInsertBlocks(blockIndex, reader);
      RequestCoherent(reader.disk, cache.geometry, before, blockIndex, readOk);
      RequestZero(reader.disk, cache.geometry, before, Request(blockIndex, readOk));
      if cached.None? {
        return Err(if blockIndex * cache.geometry.blockSize >= WORD_LIMIT then BlockRead else Io);
      }
      assert cached.value == cache.entries[0].data;
      CopyInto(dst, from, cached.value[offset..readEnd]);
      SeenDelivered(originalIndex, offset, len, old(ZeroClean()));
      r := Ok(());
    }
  }

  /** copy_from_slice on a sub-slice. */
  method CopyInto(dst: array<byte>, from: nat, src: seq<byte>)
    requires from + |src| <= dst.Length
    modifies dst
    ensures dst[from..from + |src|] == src
    ensures forall i :: 0 <= i < dst.Length && !(from <= i < from + |src|) ==> dst[i] == old(dst[i])
  {
    var i := 0;
    while i < |src|
      invariant 0 <= i <= |src|
      invariant dst[from..from + i] == src[..i]
      invariant forall k :: 0 <= k < dst.Length && !(from <= k < from + i) ==> dst[k] == old(dst[k])
    {
      dst[from + i] := src[i];
      i := i + 1;
    }
  }

  // ---------------------------------------------------------------------
  // The file cursor

  /** The list of blocks is long enough for the file. */
  predicate Covers(size: nat, numBlocks: nat, blockSize: nat) {
    size <= numBlocks * blockSize
  }

  function BlockOf(position: nat, blockSize: nat): (k: nat)
    requires blockSize > 0
  {
    position / blockSize
  }

  function OffsetOf(position: nat, blockSize: nat): (k: nat)
    requires blockSize > 0
    ensures k < blockSize
  {
    position % blockSize
  }

  /** How many bytes one read returns at `position`: never past the file, the buffer or the block. */
  function ChunkLength(size: nat, blockSize: nat, position: nat, len: nat): (n: nat)
    requires blockSize > 0
    ensures n <= len && (position < size ==> position + n <= size)
    ensures n == 0 <==> len == 0 || position >= size
  {
    if len == 0 || position >= size then 0
    else Min(Min(len, size - position), blockSize - OffsetOf(position, blockSize))
  }

  /** A read is short only at the end of the file or of a block. */
  lemma ChunkMaximal(size: nat, blockSize: nat, position: nat, len: nat)
    requires blockSize > 0 && position < size
    ensures var n := ChunkLength(size, blockSize, position, len);
            && position % blockSize + n <= blockSize
            && (n == len || position + n == size || position % blockSize + n == blockSize)
  {
  }

  /** An open file: the block list of its inode, the position and the current block. */
  class File {
    const fs: Ext4
    const size: nat
    const blocks: seq<nat>
    /** How far the block iterator has advanced. */
    var next: nat
    var position: nat
    var blockIndex: Option<nat>

    /** The cursor invariant: the iterator stands after the current block, or at it when none is held. */
    ghost predicate Aligned()
      reads this
      requires fs.cache.geometry.blockSize > 0
    {
      var block := BlockOf(position, fs.cache.geometry.blockSize);
      match blockIndex
      case Some(b) => block < |blocks| && b == blocks[block] && next == block + 1
      case None => next == Min(block, |blocks|)
    }

    ghost predicate Valid()
      reads this, fs, fs.cache, fs.reader
    {
      && fs.Valid()
      && Covers(size, |blocks|, fs.cache.geometry.blockSize)
      && Aligned()
    }

    /** Block zero cannot be read at all when no block reaches past the reserved bytes. */
    ghost predicate Masked(block: nat, clean: bool)
      reads fs
    {
      block == 0 || (MapBlockIndex(fs.journal, block) == 0 && !clean && fs.cache.geometry.blockSize > RESERVED)
    }

    /** The byte at an offset: zero in a hole, otherwise from the block through the journal. */
    ghost function ByteAt(i: nat, clean: bool): (b: byte)
      reads fs
      requires fs.cache.geometry.blockSize > 0 && Covers(size, |blocks|, fs.cache.geometry.blockSize)
      requires i < size
    {
      DivBound(i, size, |blocks|, fs.cache.geometry.blockSize);
      var block := blocks[BlockOf(i, fs.cache.geometry.blockSize)];
      if Masked(block, clean) then 0 else fs.BlockAt(block)[OffsetOf(i, fs.cache.geometry.blockSize)]
    }

    /** The bytes as read: until block zero is clean, blocks that the journal maps there read as zeros. */
    ghost function Seen(clean: bool): (s: seq<byte>)
      reads fs
      requires fs.cache.geometry.blockSize > 0 && Covers(size, |blocks|, fs.cache.geometry.blockSize)
      ensures |s| == size
    {
      seq(size, i requires 0 <= i < size reads fs => ByteAt(i, clean))
    }

    /** The flat content of the file. */
    ghost function Content(): (s: seq<byte>)
      reads fs
      requires fs.cache.geometry.blockSize > 0 && Covers(size, |blocks|, fs.cache.geometry.blockSize)
      ensures |s| == size
    {
      Seen(true)
    }

    /**
     Every byte of the file, straight from the disk: zero in a hole, otherwise
     the byte of the block that the journal has for the file's block, or of that
     block itself.
     */
    lemma ContentAt(i: nat)
      requires fs.cache.geometry.blockSize > 0 && Covers(size, |blocks|, fs.cache.geometry.blockSize) && i < size
      ensures i / fs.cache.geometry.blockSize < |blocks|
      ensures var blockSize, b := fs.cache.geometry.blockSize, blocks[i / fs.cache.geometry.blockSize];
              Content()[i] == if b == 0 then 0
                              else if b in fs.journal then fs.reader.disk(fs.journal[b] * blockSize + i % blockSize)
                              else fs.reader.disk(b * blockSize + i % blockSize)
    {
      hide Covers, Offset;
      DivBound(i, size, |blocks|, fs.cache.geometry.blockSize);
      assert Content()[i] == ByteAt(i, true);
      var b := blocks[i / fs.cache.geometry.blockSize];
      BlockByte(fs.reader.disk, fs.cache.geometry.blockSize, MapBlockIndex(fs.journal, b), i % fs.cache.geometry.blockSize);
    }

    /** While zeroed entries for block zero are left, only readable file blocks that the journal has there differ. */
    lemma SeenAt(i: nat)
      requires fs.cache.geometry.blockSize > 0 && Covers(size, |blocks|, fs.cache.geometry.blockSize) && i < size
      ensures i / fs.cache.geometry.blockSize < |blocks|
      ensures var b := blocks[i / fs.cache.geometry.blockSize];
              Seen(false)[i]
              == if b in fs.journal && fs.journal[b] == 0 && fs.cache.geometry.blockSize > 1024 then 0 else Content()[i]
    {
      DivBound(i, size, |blocks|, fs.cache.geometry.blockSize);
    }

    /** Where no readable block is mapped to block zero, reads see the content from the start. */
    lemma SeenApart()
      requires fs.cache.geometry.blockSize > 0 && Covers(size, |blocks|, fs.cache.geometry.blockSize)
      requires Apart(fs, blocks)
      ensures Seen(false) == Content()
    {
      hide Covers, BlockOf, OffsetOf, Block, MapBlockIndex;
      forall i | 0 <= i < size
        ensures ByteAt(i, false) == ByteAt(i, true)
      {
        DivBound(i, size, |blocks|, fs.cache.geometry.blockSize);
      }
    }

    /** open_inode. */
    constructor (fs: Ext4, size: nat, blocks: seq<nat>)
      requires fs.Valid() && Covers(size, |blocks|, fs.cache.geometry.blockSize)
      ensures Valid() && position == 0
      ensures this.fs == fs && this.size == size && this.blocks == blocks
    {
      this.fs := fs;
      this.size := size;
      this.blocks := blocks;
      next := 0;
      position := 0;
      blockIndex := None;
      new;
      assert BlockOf(0, fs.cache.geometry.blockSize) == 0;
    }

    /** The data of one block, or zeros in a hole. */
    method ReadChunk(block: nat, offset: nat, buf: array<byte>, from: nat, n: nat) returns (r: Result<()>)
      requires fs.Valid() && block in blocks
      requires offset < fs.cache.geometry.blockSize && offset + n <= fs.cache.geometry.blockSize
      requires from + n <= buf.Length && buf != fs.cache.readBuf
      modifies fs.cache`entries, fs.cache.readBuf, fs.reader, buf
      ensures fs.Valid() && (old(fs.ZeroClean()) ==> fs.ZeroClean())
      ensures r.Ok? ==>
                buf[from..from + n]
                == if Masked(block, old(fs.ZeroClean())) then Zeros(n) else fs.BlockAt(block)[offset..offset + n]
      ensures r.Ok? ==> forall i :: 0 <= i < buf.Length && !(from <= i < from + n) ==> buf[i] == old(buf[i])
      ensures r.Err? ==> buf[..] == old(buf[..])
      ensures fs.reader.faults == map[] && Reachable() ==> r.Ok?
    {
      hide Coherent, Block, Ext4.Valid, BlockCache.Valid, MapBlockIndex, Ext4.ZeroClean, Zeros, Ext4.BlockAt;
      if block == 0 {
        CopyInto(buf, from, Zeros(n));
        r := Ok(());
      } else {
        ghost var mapped := MapBlockIndex(fs.journal, block);
        assert Reachable() ==> fs.Readable(block, offset, n) && mapped * fs.cache.geometry.blockSize < WORD_LIMIT;
        assert fs.cache.geometry.blockSize <= RESERVED && mapped == 0 ==> !fs.Readable(block, offset, n);
        r := fs.ReadFromBlock(block, offset, buf, from, n);
        ZerosWithin(fs.cache.geometry.blockSize, offset, n);
        assert r.Err? ==> r.error.BlockRead? || r.error.Io?;
      }
    }

    /** read_bytes into `buf[from..from + len]`. */
    method ReadBytes(buf: array<byte>, from: nat, len: nat) returns (r: Result<nat>)
      requires Valid() && from + len <= buf.Length && buf != fs.cache.readBuf
      modifies this`next, this`position, this`blockIndex
      modifies fs.cache`entries, fs.cache.readBuf, fs.reader, buf
      ensures Valid() && (old(fs.ZeroClean()) ==> fs.ZeroClean())
      ensures r.Ok? ==>
                var p := old(position);
                var n := r.value;
                && n == ChunkLength(size, fs.cache.geometry.blockSize, p, len)
                && position == p + n
                && (n > 0 ==> p + n <= size && buf[from..from + n] == Seen(old(fs.ZeroClean()))[p..p + n])
                && forall i :: 0 <= i < buf.Length && !(from <= i < from + n) ==> buf[i] == old(buf[i])
      ensures r.Err? ==> position == old(position) && buf[..] == old(buf[..])
      ensures fs.reader.faults == map[] && Reachable() ==> r.Ok?
    {
      hide Covers, Coherent, BlockOf, OffsetOf, Block, Seen, Reachable, Zeros;
      hide Aligned, Ext4.Valid, BlockCache.Valid, MapBlockIndex, Masked, Ext4.ZeroClean;
      ghost var clean := fs.ZeroClean();
      if len == 0 {
        return Ok(0);
      }
      if position >= size {
        return Ok(0);
      }
      var n := len;
      if n > size - position {
        n := size - position;
      }
      var block := CurrentBlock();
      var offset := OffsetOf(position, fs.cache.geometry.blockSize);
      var remainingInBlock := fs.cache.geometry.blockSize - offset;
      if n > remainingInBlock {
        n := remainingInBlock;
      }
      var read := ReadChunk(block, offset, buf, from, n);
      if read.Err? {
        return Err(read.error);
      }
      ChunkContent(position, n, clean);
      Advance(n);
      r := Ok(n);
    }

    /** The block under the cursor, taken from the iterator when none is held. */
    method CurrentBlock() returns (block: nat)
      requires Valid() && position < size
      modifies this`next, this`blockIndex
      ensures Valid() && blockIndex == Some(block)
      ensures BlockOf(position, fs.cache.geometry.blockSize) < |blocks|
      ensures block == blocks[BlockOf(position, fs.cache.geometry.blockSize)]
    {
      hide Covers, Coherent, BlockOf, Ext4.Valid, BlockCache.Valid;
      DivBound(position, size, |blocks|, fs.cache.geometry.blockSize);
      if blockIndex.Some? {
        block := blockIndex.value;
      } else {
        block := blocks[next];
        next := next + 1;
        blockIndex := Some(block);
      }
    }

    /** Moves on within the current block, letting go of it at its end. */
    method Advance(n: nat)
      requires Valid() && blockIndex.Some?
      requires OffsetOf(position, fs.cache.geometry.blockSize) + n <= fs.cache.geometry.blockSize
      modifies this`position, this`blockIndex
      ensures Valid() && position == old(position) + n
    {
      hide Covers, Coherent, BlockOf, OffsetOf, Ext4.Valid, BlockCache.Valid;
      StepWithinBlock(position, n, fs.cache.geometry.blockSize);
      if OffsetOf(position, fs.cache.geometry.blockSize) + n >= fs.cache.geometry.blockSize {
        blockIndex := None;
      }
      position := position + n;
    }

    /** Within one block, the bytes as read are that block, or zeros. */
    lemma ChunkContent(p: nat, n: nat, clean: bool)
      requires fs.cache.geometry.blockSize > 0 && Covers(size, |blocks|, fs.cache.geometry.blockSize)
      requires p < size && p + n <= size
      requires OffsetOf(p, fs.cache.geometry.blockSize) + n <= fs.cache.geometry.blockSize
      ensures BlockOf(p, fs.cache.geometry.blockSize) < |blocks|
      ensures var block := blocks[BlockOf(p, fs.cache.geometry.blockSize)];
              var offset := OffsetOf(p, fs.cache.geometry.blockSize);
              Seen(clean)[p..p + n] == if Masked(block, clean) then Zeros(n) else fs.BlockAt(block)[offset..offset + n]
    {
      hide Block, MapBlockIndex, Masked;
      var blockSize := fs.cache.geometry.blockSize;
      DivBound(p, size, |blocks|, blockSize);
      var block, offset := blocks[BlockOf(p, blockSize)], OffsetOf(p, blockSize);
      var want := if Masked(block, clean) then Zeros(n) else fs.BlockAt(block)[offset..offset + n];
      var got := Seen(clean)[p..p + n];
      forall j | 0 <= j < n
        ensures got[j] == want[j]
      {
        StepWithinBlock(p, j, blockSize);
        assert got[j] == ByteAt(p + j, clean);
      }
    }

    /** Every block of the file lies on the disk, past the reserved start. */
    predicate Reachable()
      reads fs
    {
      forall i :: 0 <= i < |blocks| && blocks[i] != 0 ==>
        MapBlockIndex(fs.journal, blocks[i]) != 0
        && MapBlockIndex(fs.journal, blocks[i]) < fs.cache.geometry.numFsBlocks
        && MapBlockIndex(fs.journal, blocks[i]) * fs.cache.geometry.blockSize < WORD_LIMIT
    }

    /** seek_to: the iterator is restarted and advanced by the whole blocks before `target`. */
    method SeekTo(target: nat)
      requires Valid()
      modifies this`next, this`position, this`blockIndex
      ensures Valid() && position == target
    {
      next := 0;
      blockIndex := None;
      hide Covers, Coherent, BlockOf;
      var numBlocks := BlockOf(target, fs.cache.geometry.blockSize);
      var i := 0;
      while i < numBlocks
        invariant 0 <= i <= numBlocks
        invariant next == Min(i, |blocks|) && blockIndex.None?
      {
        if next < |blocks| {
          next := next + 1;
        }
        i := i + 1;
      }
      position := target;
    }
  }

  // ---------------------------------------------------------------------
  // Whole sessions

  datatype Op = Read(len: nat) | Seek(target: nat)

  /** The position after a session on a file of `size` bytes. */
  function PositionAfter(size: nat, blockSize: nat, ops: seq<Op>): (p: nat)
    requires blockSize > 0
  {
    if ops == [] then 0
    else
      var p := PositionAfter(size, blockSize, ops[..|ops| - 1]);
      match ops[|ops| - 1]
      case Seek(target) => target
      case Read(len) => p + ChunkLength(size, blockSize, p, len)
  }

  /** What one operation on a flat byte sequence yields at a position; a seek yields nothing. */
  function Output(content: seq<byte>, blockSize: nat, p: nat, op: Op): (out: seq<byte>)
    requires blockSize > 0
  {
    match op
    case Seek(_) => []
    case Read(len) => if p >= |content| then [] else content[p..p + ChunkLength(|content|, blockSize, p, len)]
  }

  /** What each operation of a session on a flat byte sequence yields. */
  function Outputs(content: seq<byte>, blockSize: nat, ops: seq<Op>): (outs: seq<seq<byte>>)
    requires blockSize > 0
    ensures |outs| == |ops|
  {
    if ops == [] then []
    else
      var init := ops[..|ops| - 1];
      Outputs(content, blockSize, init)
      + [Output(content, blockSize, PositionAfter(|content|, blockSize, init), ops[|ops| - 1])]
  }

  /** One operation of a session. */
  method Perform(file: File, op: Op) returns (ok: bool, out: seq<byte>)
    requires file.Valid()
    modifies file`next, file`position, file`blockIndex
    modifies file.fs.cache`entries, file.fs.cache.readBuf, file.fs.reader
    ensures file.Valid() && (old(file.fs.ZeroClean()) ==> file.fs.ZeroClean())
    ensures ok ==> out == Output(file.Seen(old(file.fs.ZeroClean())), file.fs.cache.geometry.blockSize, old(file.position), op)
    ensures ok ==> file.position == match op
                                    case Seek(target) => target
                                    case Read(len) =>
                                      old(file.position)
                                      + ChunkLength(file.size, file.fs.cache.geometry.blockSize, old(file.position), len)
    ensures file.fs.reader.faults == map[] && file.Reachable() ==> ok
  {
    hide Covers, Coherent, BlockOf, OffsetOf, Block, File.Seen, File.Reachable;
    hide File.Aligned, Ext4.Valid, BlockCache.Valid, MapBlockIndex, Ext4.ZeroClean;
    match op {
      case Seek(target) =>
        file.SeekTo(target);
        return true, [];
      case Read(len) =>
        var buf := new byte[len];
        var r := file.ReadBytes(buf, 0, len);
        if r.Err? {
          return false, [];
        }
        return true, buf[..r.value];
    }
  }

  /**
   Any session of reads and seeks, free of errors, sees one flat byte sequence
   up to its operation `switch` and the file's content from then on. The two
   differ only in blocks that the journal maps to block zero.
   */
  method Session(file: File, ops: seq<Op>) returns (ok: bool, outs: seq<seq<byte>>, ghost switch: nat)
    requires file.Valid() && file.position == 0
    modifies file`next, file`position, file`blockIndex
    modifies file.fs.cache`entries, file.fs.cache.readBuf, file.fs.reader
    ensures file.Valid() && switch <= |ops| && (old(file.fs.ZeroClean()) ==> switch == 0)
    ensures ok && switch < |ops| ==> file.fs.ZeroClean()
    ensures ok ==>
              outs == Outputs(file.Seen(false), file.fs.cache.geometry.blockSize, ops)[..switch]
                    + Outputs(file.Content(), file.fs.cache.geometry.blockSize, ops)[switch..]
    ensures ok && (Apart(file.fs, file.blocks) || old(file.fs.ZeroClean())) ==>
              outs == Outputs(file.Content(), file.fs.cache.geometry.blockSize, ops)
    ensures ok ==> file.position == PositionAfter(file.size, file.fs.cache.geometry.blockSize, ops)
    ensures file.fs.reader.faults == map[] && file.Reachable() ==> ok
  {
    assert PositionAfter(file.size, file.fs.cache.geometry.blockSize, ops[..0]) == 0;
    hide Covers, Coherent, BlockOf, OffsetOf, Block, File.Seen, File.Reachable;
    hide ChunkLength, Output, Outputs, PositionAfter;
    hide File.Aligned, Ext4.Valid, BlockCache.Valid, MapBlockIndex, Ext4.ZeroClean, Apart;
    ok, outs, switch := true, [], 0;
    var i := 0;
    ghost var blockSize, stale, content := file.fs.cache.geometry.blockSize, file.Seen(false), file.Content();
    ghost var cleanAtStart := file.fs.ZeroClean();
    while i < |ops|
      invariant 0 <= switch <= i <= |ops| && file.Valid()
      invariant file.Seen(false) == stale && file.Content() == content
      invariant cleanAtStart ==> switch == 0 && file.fs.ZeroClean()
      invariant switch == i || file.fs.ZeroClean()
      invariant outs == Mixed(stale, content, blockSize, ops[..i], switch)
      invariant file.position == PositionAfter(file.size, blockSize, ops[..i])
    {
      ghost var clean := file.fs.ZeroClean();
      var performed, out := Perform(file, ops[i]);
      if !performed {
        return false, outs, switch;
      }
      MixedStep(stale, content, blockSize, ops, i, switch, clean);
      PositionStep(file.size, blockSize, ops, i);
      outs := outs + [out];
      if !clean {
        switch := i + 1;
      }
      i := i + 1;
    }
    assert ops[..i] == ops;
    Unmixed(content, blockSize, ops, switch);
    if Apart(file.fs, file.blocks) {
      file.SeenApart();
    }
  }

  /** The outputs of one sequence and then of another. */
  ghost function Mixed(first: seq<byte>, second: seq<byte>, blockSize: nat, ops: seq<Op>, switch: nat): (outs: seq<seq<byte>>)
    requires blockSize > 0 && switch <= |ops|
  {
    Outputs(first, blockSize, ops)[..switch] + Outputs(second, blockSize, ops)[switch..]
  }

  lemma Unmixed(content: seq<byte>, blockSize: nat, ops: seq<Op>, switch: nat)
    requires blockSize > 0 && switch <= |ops|
    ensures Mixed(content, content, blockSize, ops, switch) == Outputs(content, blockSize, ops)
  {
  }

  lemma MixedStep(first: seq<byte>, second: seq<byte>, blockSize: nat, ops: seq<Op>, i: nat, switch: nat, clean: bool)
    requires blockSize > 0 && |first| == |second| && switch <= i < |ops| && (clean || switch == i)
    ensures Mixed(first, second, blockSize, ops[..i + 1], if clean then switch else i + 1)
         == Mixed(first, second, blockSize, ops[..i], switch)
          + [Output(if clean then second else first, blockSize, PositionAfter(|first|, blockSize, ops[..i]), ops[i])]
  {
    hide Output, PositionAfter;
    assert ops[..i + 1][..i] == ops[..i];
    var a, b := Outputs(first, blockSize, ops[..i + 1]), Outputs(second, blockSize, ops[..i + 1]);
    assert a[..i] == Outputs(first, blockSize, ops[..i]) && b[..i] == Outputs(second, blockSize, ops[..i]);
  }

  lemma PositionStep(size: nat, blockSize: nat, ops: seq<Op>, i: nat)
    requires blockSize > 0 && i < |ops|
    ensures var p := PositionAfter(size, blockSize, ops[..i]);
            PositionAfter(size, blockSize, ops[..i + 1])
            == match ops[i] case Seek(target) => target case Read(len) => p + ChunkLength(size, blockSize, p, len)
  {
    hide ChunkLength;
    assert ops[..i + 1][..i] == ops[..i];
  }

  /** Reading on from a position in chunks of any lengths spells out the content from there. */
  lemma {:induction false} ReadsConcatenate(content: seq<byte>, blockSize: nat, start: nat, lens: seq<nat>)
    requires blockSize > 0 && start <= |content|
    ensures var ops := [Seek(start)] + ReadOps(lens);
            var p := PositionAfter(|content|, blockSize, ops);
            start <= p <= |content| && Flatten(Outputs(content, blockSize, ops)) == content[start..p]
    decreases |lens|
  {
    var ops := [Seek(start)] + ReadOps(lens);
    if lens == [] {
      assert ops == [Seek(start)];
      assert ops[..0] == [];
      assert Outputs(content, blockSize, ops) == [[]];
    } else {
      hide ChunkLength, Output, Outputs, PositionAfter, Flatten;
      var n := |ops| - 1;
      ReadsConcatenate(content, blockSize, start, lens[..|lens| - 1]);
      assert ops[..n] == [Seek(start)] + ReadOps(lens[..|lens| - 1]);
      assert ops[n] == Read(lens[|lens| - 1]) && ops[..n + 1] == ops;
      ReadOn(content, blockSize, ops[..n], lens[|lens| - 1], start);
      assert ops[..n] + [Read(lens[|lens| - 1])] == ops;
    }
  }

  /** One more read spells out the next stretch. */
  lemma ReadOn(content: seq<byte>, blockSize: nat, ops: seq<Op>, len: nat, start: nat)
    requires blockSize > 0
    requires var p := PositionAfter(|content|, blockSize, ops);
             start <= p <= |content| && Flatten(Outputs(content, blockSize, ops)) == content[start..p]
    ensures var after := ops + [Read(len)];
            var p := PositionAfter(|content|, blockSize, after);
            start <= p <= |content| && Flatten(Outputs(content, blockSize, after)) == content[start..p]
  {
    hide ChunkLength, Outputs, PositionAfter, Flatten;
    var p := PositionAfter(|content|, blockSize, ops);
    var n := ChunkLength(|content|, blockSize, p, len);
    OneMore(content, blockSize, ops, len);
    FlattenMore(Outputs(content, blockSize, ops), Output(content, blockSize, p, Read(len)));
    if p < |content| {
      assert content[start..p] + content[p..p + n] == content[start..p + n];
    }
  }

  lemma OneMore(content: seq<byte>, blockSize: nat, ops: seq<Op>, len: nat)
    requires blockSize > 0
    ensures var after, p := ops + [Read(len)], PositionAfter(|content|, blockSize, ops);
            && Outputs(content, blockSize, after)
               == Outputs(content, blockSize, ops) + [Output(content, blockSize, p, Read(len))]
            && PositionAfter(|content|, blockSize, after) == p + ChunkLength(|content|, blockSize, p, len)
  {
    hide ChunkLength, Output;
    assert (ops + [Read(len)])[..|ops|] == ops;
  }

  lemma FlattenMore(ss: seq<seq<byte>>, s: seq<byte>)
    ensures Flatten(ss + [s]) == Flatten(ss) + s
  {
    assert (ss + [s])[..|ss|] == ss;
  }

  function ReadOps(lens: seq<nat>): (ops: seq<Op>)
    ensures |ops| == |lens| && forall i :: 0 <= i < |lens| ==> ops[i] == Read(lens[i])
  {
    seq(|lens|, i requires 0 <= i < |lens| => Read(lens[i]))
  }

  function Flatten(ss: seq<seq<byte>>): (s: seq<byte>) {
    if ss == [] then [] else Flatten(ss[..|ss| - 1]) + ss[|ss| - 1]
  }

  /** No block of the list is mapped to block zero, or none such can be read. */
  predicate Apart(fs: Ext4, blocks: seq<nat>)
    reads fs
  {
    || (forall i :: 0 <= i < |blocks| && blocks[i] != 0 ==> MapBlockIndex(fs.journal, blocks[i]) != 0)
    || fs.cache.geometry.blockSize <= RESERVED
  }

  /** read_inode_file: repeated reads into a shrinking buffer. */
  method ReadInodeFile(fs: Ext4, size: nat, blocks: seq<nat>)
    returns (r: Result<seq<byte>>, file: File, ghost switch: nat)
    requires fs.Valid() && Covers(size, |blocks|, fs.cache.geometry.blockSize)
    modifies fs.cache`entries, fs.cache.readBuf, fs.reader
    ensures fresh(file) && file.Valid() && file.fs == fs && file.size == size && file.blocks == blocks
    ensures switch <= size && (old(fs.ZeroClean()) ==> switch == 0)
    ensures r.Ok? && switch < size ==> fs.ZeroClean()
    ensures r.Ok? ==> r.value == file.Seen(false)[..switch] + file.Content()[switch..]
    ensures r.Ok? && (Apart(fs, blocks) || old(fs.ZeroClean())) ==> r.value == file.Content()
    ensures fs.reader.faults == map[] && file.Reachable() ==> r.Ok?
  {
    hide Covers, Coherent, BlockOf, OffsetOf, Block, File.Seen, File.Reachable;
    hide File.Aligned, Ext4.Valid, BlockCache.Valid, MapBlockIndex, Ext4.ZeroClean, Apart, ChunkLength, Min, Zeros;
    ghost var cleanAtStart := fs.ZeroClean();
    var dst := new byte[size];
    file := new File(fs, size, blocks);
    switch := 0;
    var done := 0;
    ghost var stale, content := file.Seen(false), file.Content();
    while true
      invariant file.Valid() && 0 <= switch <= file.position == done <= size
      invariant file.Seen(false) == stale && file.Content() == content
      invariant cleanAtStart ==> switch == 0 && fs.ZeroClean()
      invariant switch == done || fs.ZeroClean()
      invariant dst[..done] == stale[..switch] + content[switch..done]
      decreases size - done, 1
    {
      ghost var before, clean := dst[..], fs.ZeroClean();
      var bytesRead := file.ReadBytes(dst, done, size - done);
      if bytesRead.Err? {
        return Err(bytesRead.error), file, switch;
      }
      if bytesRead.value == 0 {
        break;
      }
      var n := bytesRead.value;
      GrowMixed(stale, content, before, dst[..], done, n, switch, clean);
      if !clean {
        switch := done + n;
      }
      done := done + n;
    }
    r := Ok(dst[..]);
    assert dst[..] == dst[..done];
    AllMixed(stale, content, dst[..], switch);
    if Apart(fs, blocks) {
      file.SeenApart();
    }
  }

  lemma AllMixed(first: seq<byte>, second: seq<byte>, dst: seq<byte>, switch: nat)
    requires |first| == |second| == |dst| && switch <= |dst| && dst == first[..switch] + second[switch..|dst|]
    ensures dst == first[..switch] + second[switch..]
    ensures switch == 0 || first == second ==> dst == second
  {
  }

  lemma GrowMixed(first: seq<byte>, second: seq<byte>, before: seq<byte>, dst: seq<byte>,
                  done: nat, n: nat, switch: nat, clean: bool)
    requires |first| == |second| == |dst| == |before| && switch <= done <= done + n <= |dst| && (clean || switch == done)
    requires before[..done] == first[..switch] + second[switch..done]
    requires forall i :: 0 <= i < done ==> dst[i] == before[i]
    requires dst[done..done + n] == (if clean then second else first)[done..done + n]
    ensures var m := if clean then switch else done + n; dst[..done + n] == first[..m] + second[m..done + n]
  {
    assert dst[..done] == before[..done];
    assert dst[..done + n] == dst[..done] + dst[done..done + n];
    if clean {
      assert second[switch..done + n] == second[switch..done] + second[done..done + n];
    } else {
      assert first[..done + n] == first[..done] + first[done..done + n];
    }
  }

  lemma ZerosWithin(size: nat, offset: nat, n: nat)
    requires offset + n <= size
    ensures Zeros(size)[offset..offset + n] == Zeros(n)
  {
  }

  lemma DivBound(i: nat, size: nat, numBlocks: nat, blockSize: nat)
    requires blockSize > 0 && i < size && Covers(size, numBlocks, blockSize)
    ensures BlockOf(i, blockSize) < numBlocks
  {
  }

  /** A step within a block keeps the block number, one that fills the block moves to the next. */
  lemma StepWithinBlock(p: nat, n: nat, d: nat)
    requires d > 0 && OffsetOf(p, d) + n <= d
    ensures OffsetOf(p, d) + n < d ==> BlockOf(p + n, d) == BlockOf(p, d) && OffsetOf(p + n, d) == OffsetOf(p, d) + n
    ensures OffsetOf(p, d) + n == d ==> BlockOf(p + n, d) == BlockOf(p, d) + 1
  {
    var q, o := p / d, p % d;
    assert p == q * d + o;
    if o + n < d {
      DivUnique(p + n, d, q, o + n);
    } else {
      assert p + n == (q + 1) * d;
      DivUnique(p + n, d, q + 1, 0);
    }
  }

  lemma DivUnique(x: nat, d: nat, q: nat, r: nat)
    requires d > 0 && r < d && x == q * d + r
    ensures x / d == q && x % d == r
  {
    var q', r' := x / d, x % d;
    assert x == q' * d + r';
    assert (q' - q) * d == r - r';
    if q' > q {
      MulMono(1, q' - q, d);
    } else if q' < q {
      MulMono(1, q - q', d);
    }
  }
}
