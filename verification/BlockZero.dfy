/** Block zero in the block cache, whose entries start out tagged as that block (ext4-view-rs/src/block_cache.rs). */
module BlockZero {
  import opened Bytes
  import opened BlockCaching
  import opened Wrappers

  /** How many blocks a request inserts. */
  function Inserted(g: Geometry, entries: seq<CacheEntry>, r: Request): (n: nat)
    requires g.Valid() && r.index < g.numFsBlocks
  {
    if Position(entries, r.index).None? && r.readOk then g.NumBlocksToRead(r.index) else 0
  }

  function InsertedByAll(disk: Disk, g: Geometry, entries: seq<CacheEntry>, requests: seq<Request>): (n: nat)
    requires g.Valid() && g.maxBlocksPerRead <= |entries| && Legal(g, requests)
  {
    if requests == [] then 0
    else
      var init := requests[..|requests| - 1];
      InsertedByAll(disk, g, entries, init)
      + Inserted(g, AfterAll(disk, g, entries, init), requests[|requests| - 1])
  }

  predicate AvoidsZero(requests: seq<Request>) {
    forall i :: 0 <= i < |requests| ==> requests[i].index != 0
  }

  /** The list is `used` entries for nonzero blocks followed by untouched ones. */
  predicate FreshTail(g: Geometry, entries: seq<CacheEntry>, used: nat) {
    && used <= |entries|
    && (forall i :: 0 <= i < used ==> entries[i].blockIndex != 0)
    && (forall i :: used <= i < |entries| ==> entries[i] == CacheEntry(0, Zeros(g.blockSize)))
  }

  lemma RequestFreshTail(disk: Disk, g: Geometry, entries: seq<CacheEntry>, r: Request, used: nat)
    requires g.Valid() && r.index < g.numFsBlocks && g.maxBlocksPerRead <= |entries| && r.index != 0
    requires FreshTail(g, entries, used)
    ensures FreshTail(g, Requested(disk, g, entries, r.index, r.readOk), Min(|entries|, used + Inserted(g, entries, r)))
  {
    hide Block, Zeros, Position;
    match Position(entries, r.index)
    case Some(k) =>
      assert k < used;
      var s := ToFront(entries, k);
      forall i | 0 <= i < |s|
        ensures s[i] == (if i == 0 then entries[k] else if i <= k then entries[i - 1] else entries[i])
      {
      }
    case None =>
  }

  lemma {:induction false} RunFreshTail(disk: Disk, g: Geometry, numEntries: nat, requests: seq<Request>)
    requires g.Valid() && g.maxBlocksPerRead <= numEntries && Legal(g, requests) && AvoidsZero(requests)
    ensures var start := Fresh(g, numEntries);
            FreshTail(g, AfterAll(disk, g, start, requests), Min(numEntries, InsertedByAll(disk, g, start, requests)))
    decreases |requests|
  {
    hide Requested, Fresh, FreshTail;
    var start := Fresh(g, numEntries);
    if requests == [] {
      FreshStart(g, numEntries);
    } else {
      var init, last := requests[..|requests| - 1], requests[|requests| - 1];
      RunFreshTail(disk, g, numEntries, init);
      var used := Min(numEntries, InsertedByAll(disk, g, start, init));
      RequestFreshTail(disk, g, AfterAll(disk, g, start, init), last, used);
    }
  }

  lemma FreshStart(g: Geometry, numEntries: nat)
    ensures FreshTail(g, Fresh(g, numEntries), 0)
  {
  }

  /**
   Theorem: new entries are tagged as block zero with zero data, so the first
   request for block zero returns the disk's block exactly when that block is
   all zeros or at least as many blocks have been read as the cache holds.
   */
  lemma FirstReadOfBlockZero(disk: Disk, g: Geometry, numEntries: nat, requests: seq<Request>)
    requires g.Valid() && g.maxBlocksPerRead <= numEntries && 0 < g.numFsBlocks
    requires Legal(g, requests) && AvoidsZero(requests)
    ensures var start := Fresh(g, numEntries);
            var entries := AfterAll(disk, g, start, requests);
            var got := Requested(disk, g, entries, 0, true)[0].data;
            got == Block(disk, g.blockSize, 0) <==>
              || Block(disk, g.blockSize, 0) == Zeros(g.blockSize)
              || InsertedByAll(disk, g, start, requests) >= numEntries
  {
    hide Block, AfterAll, InsertedByAll;
    var start := Fresh(g, numEntries);
    var entries := AfterAll(disk, g, start, requests);
    RunFreshTail(disk, g, numEntries, requests);
    if InsertedByAll(disk, g, start, requests) < numEntries {
      assert entries[numEntries - 1].blockIndex == 0;
    }
    match Position(entries, 0)
    case Some(k) =>
      assert entries[k] == CacheEntry(0, Zeros(g.blockSize));
      assert ToFront(entries, k)[0] == entries[k];
    case None =>
  }

  /** Every entry for block zero holds that block of the disk. */
  ghost predicate ZeroHeld(disk: Disk, g: Geometry, entries: seq<CacheEntry>) {
    forall i :: 0 <= i < |entries| && entries[i].blockIndex == 0 ==> entries[i].data == Block(disk, g.blockSize, 0)
  }

  /** Every entry for block zero is one of the zeroed ones the cache started with. */
  ghost predicate ZeroStale(g: Geometry, entries: seq<CacheEntry>) {
    forall i :: 0 <= i < |entries| && entries[i].blockIndex == 0 ==> entries[i].data == Zeros(g.blockSize)
  }

  lemma ToFrontElements(entries: seq<CacheEntry>, k: nat)
    requires k < |entries|
    ensures forall e :: e in ToFront(entries, k) ==> e in entries
  {
  }

  lemma RequestHeld(disk: Disk, g: Geometry, entries: seq<CacheEntry>, r: Request)
    requires g.Valid() && r.index < g.numFsBlocks && g.maxBlocksPerRead <= |entries|
    requires ZeroHeld(disk, g, entries)
    ensures ZeroHeld(disk, g, Requested(disk, g, entries, r.index, r.readOk))
  {
    hide Block;
    var s := Requested(disk, g, entries, r.index, r.readOk);
    match Position(entries, r.index)
    case Some(k) =>
      ToFrontElements(entries, k);
      assert forall i :: 0 <= i < |s| ==> s[i] in s;
    case None =>
  }

  lemma RequestStale(disk: Disk, g: Geometry, entries: seq<CacheEntry>, r: Request)
    requires g.Valid() && r.index < g.numFsBlocks && g.maxBlocksPerRead <= |entries|
    requires ZeroStale(g, entries) && (r.index == 0 ==> Position(entries, 0).Some?)
    ensures ZeroStale(g, Requested(disk, g, entries, r.index, r.readOk))
  {
    hide Block, Zeros;
    var s := Requested(disk, g, entries, r.index, r.readOk);
    match Position(entries, r.index)
    case Some(k) =>
      ToFrontElements(entries, k);
      assert forall i :: 0 <= i < |s| ==> s[i] in s;
    case None =>
  }

  /** One request for any block, and what it answers for block zero. */
  lemma RequestZero(disk: Disk, g: Geometry, entries: seq<CacheEntry>, r: Request)
    requires g.Valid() && r.index < g.numFsBlocks && g.maxBlocksPerRead <= |entries|
    requires ZeroHeld(disk, g, entries) || ZeroStale(g, entries)
    ensures var after := Requested(disk, g, entries, r.index, r.readOk);
            && (if ZeroHeld(disk, g, entries) then ZeroHeld(disk, g, after) else ZeroStale(g, after))
            && (after[0].blockIndex == 0 ==>
                  after[0].data == if ZeroHeld(disk, g, entries) then Block(disk, g.blockSize, 0) else Zeros(g.blockSize))
  {
    hide Requested, Block, Zeros;
    if ZeroHeld(disk, g, entries) {
      RequestHeld(disk, g, entries, r);
    } else {
      NoEntryIsHeld(disk, g, entries);
      RequestStale(disk, g, entries, r);
    }
  }

  /** At some point of the run, now included, the cache had no entry for block zero left. */
  ghost predicate PushedOut(disk: Disk, g: Geometry, numEntries: nat, requests: seq<Request>)
    requires g.Valid() && g.maxBlocksPerRead <= numEntries && Legal(g, requests)
  {
    exists k :: 0 <= k <= |requests| && ZeroGoneAt(disk, g, numEntries, requests, k)
  }

  ghost predicate ZeroGoneAt(disk: Disk, g: Geometry, numEntries: nat, requests: seq<Request>, k: nat)
    requires g.Valid() && g.maxBlocksPerRead <= numEntries && Legal(g, requests) && k <= |requests|
  {
    Position(AfterAll(disk, g, Fresh(g, numEntries), requests[..k]), 0).None?
  }

  lemma PushedOutStep(disk: Disk, g: Geometry, numEntries: nat, requests: seq<Request>)
    requires g.Valid() && g.maxBlocksPerRead <= numEntries && Legal(g, requests) && requests != []
    ensures PushedOut(disk, g, numEntries, requests) <==>
              || PushedOut(disk, g, numEntries, requests[..|requests| - 1])
              || Position(AfterAll(disk, g, Fresh(g, numEntries), requests), 0).None?
  {
    hide AfterAll, Position, Fresh;
    var init := requests[..|requests| - 1];
    assert requests[..|requests|] == requests;
    forall k | 0 <= k <= |init|
      ensures ZeroGoneAt(disk, g, numEntries, requests, k) <==> ZeroGoneAt(disk, g, numEntries, init, k)
    {
      assert init[..k] == requests[..k];
    }
    if k :| 0 <= k <= |init| && ZeroGoneAt(disk, g, numEntries, init, k) {
      assert ZeroGoneAt(disk, g, numEntries, requests, k);
    }
    assert ZeroGoneAt(disk, g, numEntries, requests, |requests|)
           <==> Position(AfterAll(disk, g, Fresh(g, numEntries), requests), 0).None?;
  }

  lemma PushedOutStart(disk: Disk, g: Geometry, numEntries: nat)
    requires g.Valid() && g.maxBlocksPerRead <= numEntries
    ensures !PushedOut(disk, g, numEntries, [])
    ensures ZeroStale(g, Fresh(g, numEntries))
  {
    var none: seq<Request> := [];
    assert none[..0] == none;
    assert Fresh(g, numEntries)[0].blockIndex == 0;
  }

  /** Until the zeroed entries are all gone the entries for block zero are zeroed ones, and never again after. */
  lemma {:induction false} RunOfBlockZero(disk: Disk, g: Geometry, numEntries: nat, requests: seq<Request>)
    requires g.Valid() && g.maxBlocksPerRead <= numEntries && Legal(g, requests)
    ensures var entries := AfterAll(disk, g, Fresh(g, numEntries), requests);
            if PushedOut(disk, g, numEntries, requests) then ZeroHeld(disk, g, entries)
            else ZeroStale(g, entries) && Position(entries, 0).Some?
    decreases |requests|
  {
    hide Requested, Fresh, PushedOut, ZeroHeld, ZeroStale;
    if requests == [] {
      PushedOutStart(disk, g, numEntries);
      ZeroAtStart(g, numEntries);
    } else {
      var init, last := requests[..|requests| - 1], requests[|requests| - 1];
      var before := AfterAll(disk, g, Fresh(g, numEntries), init);
      RunOfBlockZero(disk, g, numEntries, init);
      PushedOutStep(disk, g, numEntries, requests);
      if PushedOut(disk, g, numEntries, init) {
        RequestHeld(disk, g, before, last);
      } else {
        RequestStale(disk, g, before, last);
        NoEntryIsHeld(disk, g, Requested(disk, g, before, last.index, last.readOk));
      }
    }
  }

  lemma ZeroAtStart(g: Geometry, numEntries: nat)
    requires numEntries > 0
    ensures Position(Fresh(g, numEntries), 0).Some?
  {
    assert Fresh(g, numEntries)[0].blockIndex == 0;
  }

  lemma NoEntryIsHeld(disk: Disk, g: Geometry, entries: seq<CacheEntry>)
    ensures Position(entries, 0).None? ==> ZeroHeld(disk, g, entries)
  {
  }

  /**
   Theorem: after any run, a request for block zero that is answered returns
   the disk's block exactly when that block is all zeros or the zeroed entries
   the cache started with have all been pushed out.
   */
  lemma BlockZeroExactly(disk: Disk, g: Geometry, numEntries: nat, requests: seq<Request>)
    requires g.Valid() && g.maxBlocksPerRead <= numEntries && 0 < g.numFsBlocks && Legal(g, requests)
    ensures var entries := AfterAll(disk, g, Fresh(g, numEntries), requests);
            var got := Requested(disk, g, entries, 0, true)[0].data;
            got == Block(disk, g.blockSize, 0) <==>
              || Block(disk, g.blockSize, 0) == Zeros(g.blockSize)
              || PushedOut(disk, g, numEntries, requests)
  {
    hide Block, AfterAll, PushedOut, Zeros;
    var entries := AfterAll(disk, g, Fresh(g, numEntries), requests);
    RunOfBlockZero(disk, g, numEntries, requests);
    match Position(entries, 0)
    case Some(k) =>
      assert ToFront(entries, k)[0] == entries[k];
    case None =>
  }

  /** A new cache answers a request for block zero with zeros, whatever the disk holds. */
  lemma BlockZeroCanBeStale()
    ensures var disk: Disk := (_ => 1);
            var g := Geometry(4096, 8, 100);
            var got := Requested(disk, g, Fresh(g, 64), 0, true)[0].data;
            got == Zeros(4096) != Block(disk, 4096, 0)
  {
    var disk: Disk := (_ => 1);
    var g := Geometry(4096, 8, 100);
    assert Position(Fresh(g, 64), 0) == Some(0);
    assert Block(disk, 4096, 0)[0] == 1;
    assert Zeros(4096)[0] == 0;
  }
}
