/** How long a block stays in the cache (ext4-view-rs/src/block_cache.rs). */
module BlockRecency {
  import opened Bytes
  import opened BlockCaching
  import opened BlockZero
  import opened Wrappers

  /** How many places a request can push an entry back: the blocks it inserts, or one on a hit. */
  function Push(g: Geometry, entries: seq<CacheEntry>, r: Request): (n: nat)
    requires g.Valid() && r.index < g.numFsBlocks
  {
    if Position(entries, r.index).Some? then 1 else Inserted(g, entries, r)
  }

  function PushedByAll(disk: Disk, g: Geometry, entries: seq<CacheEntry>, requests: seq<Request>): (n: nat)
    requires g.Valid() && g.maxBlocksPerRead <= |entries| && Legal(g, requests)
  {
    if requests == [] then 0
    else
      var init := requests[..|requests| - 1];
      PushedByAll(disk, g, entries, init) + Push(g, AfterAll(disk, g, entries, init), requests[|requests| - 1])
  }

  /** An entry for the block with its data within the first `n` places, before any other entry for it. */
  ghost predicate Within(entries: seq<CacheEntry>, index: nat, data: seq<byte>, n: nat) {
    Position(entries, index).Some? && Position(entries, index).value < n
    && entries[Position(entries, index).value].data == data
  }

  /** A request moves an entry back by no more than its push; a copy read anew takes its place. */
  lemma RequestPushes(disk: Disk, g: Geometry, entries: seq<CacheEntry>, r: Request, index: nat, n: nat)
    requires g.Valid() && r.index < g.numFsBlocks && g.maxBlocksPerRead <= |entries|
    requires Within(entries, index, Block(disk, g.blockSize, index), n) && n + Push(g, entries, r) <= |entries|
    ensures Within(Requested(disk, g, entries, r.index, r.readOk), index, Block(disk, g.blockSize, index),
                   n + Push(g, entries, r))
  {
    hide Block, Group, Position, ToFront, Geometry.NumBlocksToRead;
    var p := Position(entries, index).value;
    match Position(entries, r.index)
    case Some(k) =>
      HitPlace(entries, index, p, k);
    case None =>
      if r.readOk {
        MissPlace(disk, g, entries, r.index, index, p, g.NumBlocksToRead(r.index));
      }
  }

  lemma HitPlace(entries: seq<CacheEntry>, index: nat, p: nat, k: nat)
    requires Position(entries, index) == Some(p) && k < |entries| && (k == p || entries[k].blockIndex != index)
    requires p + 1 < |entries| || k <= p
    ensures var s, q := ToFront(entries, k), if k < p then p else if k == p then 0 else p + 1;
            Position(s, index) == Some(q) && s[q] == entries[p]
  {
    hide Position;
    var s, q := ToFront(entries, k), if k < p then p else if k == p then 0 else p + 1;
    FirstPlace(s, index, q);
  }

  lemma MissPlace(disk: Disk, g: Geometry, entries: seq<CacheEntry>, first: nat, index: nat, p: nat, m: nat)
    requires Position(entries, index) == Some(p) && entries[p].data == Block(disk, g.blockSize, index)
    requires p + m < |entries|
    ensures var s := Group(disk, g.blockSize, first, m) + entries[..|entries| - m];
            && Position(s, index).Some? && Position(s, index).value <= p + m
            && s[Position(s, index).value].data == Block(disk, g.blockSize, index)
  {
    hide Position, Block;
    var s := Group(disk, g.blockSize, first, m) + entries[..|entries| - m];
    FirstPlace(s, index, if first <= index < first + m then index - first else p + m);
  }

  lemma FirstPlace(entries: seq<CacheEntry>, index: nat, q: nat)
    requires q < |entries| && entries[q].blockIndex == index
    requires forall i :: 0 <= i < q ==> entries[i].blockIndex != index
    ensures Position(entries, index) == Some(q)
  {
  }

  /**
   Theorem: a block at the front of the cache is found there, with its data, as
   long as the requests since have not together used or inserted as many entries
   as the cache has.
   */
  lemma {:induction false} StaysCached(disk: Disk, g: Geometry, entries: seq<CacheEntry>, requests: seq<Request>, index: nat)
    requires g.Valid() && g.maxBlocksPerRead <= |entries| && Legal(g, requests)
    requires entries[0] == CacheEntry(index, Block(disk, g.blockSize, index))
    requires PushedByAll(disk, g, entries, requests) < |entries|
    ensures Within(AfterAll(disk, g, entries, requests), index, Block(disk, g.blockSize, index),
                   1 + PushedByAll(disk, g, entries, requests))
    decreases |requests|
  {
    hide Requested, Block, Push;
    if requests == [] {
      FirstPlace(entries, index, 0);
    } else {
      hide Within;
      var init, last := requests[..|requests| - 1], requests[|requests| - 1];
      StaysCached(disk, g, entries, init, index);
      RequestPushes(disk, g, AfterAll(disk, g, entries, init), last, index, 1 + PushedByAll(disk, g, entries, init));
    }
  }
}
