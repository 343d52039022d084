/** The cluster bitmap and its searches (crates/galleon2/src/allocation.rs). */
module ClusterBitmaps {
  import opened RunLists
  import opened Wrappers
  import opened Numbers

  datatype AllocationStrategy = FirstFit | BestFit | NextFit

  /** 1 << i in a byte. */
  function Mask(i: nat): (m: bv8)
    requires i < 8
  {
    if i == 0 then 1 else if i == 1 then 2 else if i == 2 then 4 else if i == 3 then 8
    else if i == 4 then 16 else if i == 5 then 32 else if i == 6 then 64 else 128
  }

  predicate Bit(b: bv8, i: nat)
    requires i < 8
  {
    b & Mask(i) != 0
  }

  /** Bits are counted from the lowest one. */
  lemma BitShifted(b: bv8, i: nat)
    requires i < 8
    ensures Bit(b, i) <==> (b >> i) & 1 == 1
  {
    if i < 4 {
      assert i == 0 || i == 1 || i == 2 || i == 3;
    } else {
      assert i == 4 || i == 5 || i == 6 || i == 7;
    }
  }

  lemma BitOrNot(b: bv8)
    ensures b & 1 == 0 || b & 1 == 1
  {
  }

  lemma SetBit(b: bv8, i: nat, j: nat)
    requires i < 8 && j < 8
    ensures Bit(b | Mask(i), j) <==> i == j || Bit(b, j)
  {
  }

  lemma ClearBit(b: bv8, i: nat, j: nat)
    requires i < 8 && j < 8
    ensures Bit(b & !Mask(i), j) <==> i != j && Bit(b, j)
  {
  }

  // ---------------------------------------------------------------------
  // Bitmaps as sequences: true means used

  predicate WindowFree(bits: seq<bool>, s: nat, n: nat) {
    s + n <= |bits| && forall c :: s <= c < s + n ==> !bits[c]
  }

  /** A maximal stretch of free clusters. */
  predicate Segment(bits: seq<bool>, s: nat, n: nat) {
    && n > 0 && WindowFree(bits, s, n)
    && (s == 0 || bits[s - 1])
    && (s + n == |bits| || bits[s + n])
  }

  /** The bits with a range set to one value. */
  function Marked(bits: seq<bool>, lo: nat, hi: nat, used: bool): (r: seq<bool>)
    ensures |r| == |bits| && forall c :: 0 <= c < |bits| ==> r[c] == if lo <= c < hi then used else bits[c]
  {
    seq(|bits|, c requires 0 <= c < |bits| => if lo <= c < hi then used else bits[c])
  }

  function CountFree(bits: seq<bool>): (n: nat) {
    if bits == [] then 0 else CountFree(bits[..|bits| - 1]) + if bits[|bits| - 1] then 0 else 1
  }

  /** Clusters to look for: a request for none still looks for one free cluster. */
  function Need(count: nat): (n: nat)
    ensures n > 0 && (count > 0 ==> n == count)
  {
    if count == 0 then 1 else count
  }

  /** The lowest start of a sufficient free window. */
  ghost predicate IsFirstFit(bits: seq<bool>, count: nat, r: Option<ClusterRun>) {
    match r
    case Some(run) =>
      && run.count == count && WindowFree(bits, run.start, Need(count))
      && forall s :: 0 <= s < run.start ==> !WindowFree(bits, s, Need(count))
    case None => forall s: nat :: !WindowFree(bits, s, Need(count))
  }

  /** The earliest among the smallest sufficient segments. */
  ghost predicate IsBestFit(bits: seq<bool>, count: nat, r: Option<ClusterRun>) {
    match r
    case Some(run) =>
      run.count == count && exists n :: IsSmallest(bits, Need(count), run.start, n)
    case None => forall s: nat, n: nat :: n >= Need(count) ==> !Segment(bits, s, n)
  }

  /** The segment at `s` is the smallest sufficient one, earliest on ties. */
  ghost predicate IsSmallest(bits: seq<bool>, need: nat, s: nat, n: nat) {
    && Segment(bits, s, n) && n >= need
    && forall s': nat, n': nat :: Segment(bits, s', n') && n' >= need ==> n < n' || (n == n' && s <= s')
  }

  /** Among the segments starting below `k`, the one at `s` is the smallest sufficient one, earliest on ties. */
  ghost predicate IsBest(bits: seq<bool>, need: nat, s: nat, n: nat, k: nat) {
    && Segment(bits, s, n) && n >= need && s < k
    && forall s': nat, n': nat :: Segment(bits, s', n') && n' >= need && s' < k ==> n < n' || (n == n' && s <= s')
  }

  /** A free window lies in one maximal segment. */
  lemma WindowInSegment(bits: seq<bool>, s: nat, n: nat) returns (s': nat, n': nat)
    requires n > 0 && WindowFree(bits, s, n)
    ensures Segment(bits, s', n') && s' <= s && s + n <= s' + n'
  {
    s' := s;
    while s' > 0 && !bits[s' - 1]
      invariant s' <= s && WindowFree(bits, s', s + n - s')
    {
      s' := s' - 1;
    }
    var e := s + n;
    while e < |bits| && !bits[e]
      invariant s + n <= e <= |bits| && WindowFree(bits, s', e - s')
    {
      e := e + 1;
    }
    n' := e - s';
  }

  /** Theorem: either search finds nothing exactly when there is no sufficient free window. */
  lemma BestFitNone(bits: seq<bool>, count: nat)
    ensures IsBestFit(bits, count, None) <==> IsFirstFit(bits, count, None)
  {
    var need := Need(count);
    if IsBestFit(bits, count, None) {
      forall s: nat
        ensures !WindowFree(bits, s, need)
      {
        if WindowFree(bits, s, need) {
          var s', n' := WindowInSegment(bits, s, need);
        }
      }
    }
    if IsFirstFit(bits, count, None) {
      forall s: nat, n: nat | n >= need
        ensures !Segment(bits, s, n)
      {
        assert !WindowFree(bits, s, need);
      }
    }
  }

  /** Segments do not overlap: a start determines a segment, and two of them are separated. */
  lemma SegmentsApart(bits: seq<bool>, s: nat, n: nat, s': nat, n': nat)
    requires Segment(bits, s, n) && Segment(bits, s', n') && s <= s'
    ensures s == s' ==> n == n'
    ensures s < s' ==> s + n < s'
  {
    if s < s' {
      assert bits[s' - 1];
    }
  }

  // ---------------------------------------------------------------------

  class ClusterBitmap {
    const total: nat
    const bytes: array<bv8>

    /** The loaded bitmap has a bit for every cluster. */
    ghost predicate Valid() {
      total <= 8 * bytes.Length && total < WORD_LIMIT
    }

    /** The test `bitmap[cluster / 8] & (1 << cluster % 8) != 0`. */
    predicate UsedAt(cluster: nat)
      reads bytes
      requires cluster < total <= 8 * bytes.Length
    {
      Bit(bytes[cluster / 8], cluster % 8)
    }

    ghost function Bits(): (bits: seq<bool>)
      reads bytes
      requires Valid()
      ensures |bits| == total && forall c :: 0 <= c < total ==> bits[c] == UsedAt(c)
    {
      seq(total, c requires 0 <= c < total reads bytes => UsedAt(c))
    }

    constructor (total: nat, contents: seq<bv8>)
      requires total <= 8 * |contents| && total < WORD_LIMIT
      ensures Valid() && this.total == total && fresh(bytes) && bytes[..] == contents
    {
      this.total := total;
      bytes := new bv8[|contents|](i requires 0 <= i < |contents| => contents[i]);
    }

    method IsClusterFree(cluster: nat) returns (free: bool)
      requires Valid()
      ensures free <==> cluster < total && !Bits()[cluster]
      ensures free <==> cluster < total && (bytes[cluster / 8] >> (cluster % 8)) & 1 == 0
    {
      if cluster >= total {
        return false;
      }
      free := !UsedAt(cluster);
      BitShifted(bytes[cluster / 8], cluster % 8);
      BitOrNot(bytes[cluster / 8] >> (cluster % 8));
    }

    method SetClusterUsed(cluster: nat) returns (ok: bool)
      requires Valid()
      modifies bytes
      ensures ok <==> cluster < total
      ensures Bits() == Marked(old(Bits()), cluster, cluster + 1, true)
    {
      if cluster >= total {
        return false;
      }
      hide Bit, Mask;
      var byteIndex, bitIndex := cluster / 8, cluster % 8;
      ghost var before := bytes[byteIndex];
      bytes[byteIndex] := bytes[byteIndex] | Mask(bitIndex);
      forall c | 0 <= c < total
        ensures UsedAt(c) == if c == cluster then true else old(UsedAt(c))
      {
        if c / 8 == byteIndex {
          SetBit(before, bitIndex, c % 8);
        }
      }
      ok := true;
    }

    method SetClusterFree(cluster: nat) returns (ok: bool)
      requires Valid()
      modifies bytes
      ensures ok <==> cluster < total
      ensures Bits() == Marked(old(Bits()), cluster, cluster + 1, false)
    {
      if cluster >= total {
        return false;
      }
      hide Bit, Mask;
      var byteIndex, bitIndex := cluster / 8, cluster % 8;
      ghost var before := bytes[byteIndex];
      bytes[byteIndex] := bytes[byteIndex] & !Mask(bitIndex);
      forall c | 0 <= c < total
        ensures UsedAt(c) == if c == cluster then false else old(UsedAt(c))
      {
        if c / 8 == byteIndex {
          ClearBit(before, bitIndex, c % 8);
        }
      }
      ok := true;
    }

    /** mark_run_used: stops with an error at the first cluster past the end. */
    method MarkRunUsed(run: ClusterRun) returns (ok: bool)
      requires Valid()
      modifies bytes
      ensures ok <==> run.Stop() <= run.start || run.Stop() <= total
      ensures Bits() == Marked(old(Bits()), run.start, run.Stop(), true)
    {
      hide Bit, Mask;
      var cluster: nat := run.start;
      ghost var before := Bits();
      while cluster < run.Stop()
        invariant run.start <= cluster && (cluster <= run.Stop() || cluster == run.start)
        invariant cluster <= total || cluster == run.start
        invariant Bits() == Marked(before, run.start, cluster, true)
      {
        var marked := SetClusterUsed(cluster);
        if !marked {
          return false;
        }
        cluster := cluster + 1;
      }
      ok := true;
    }

    /** mark_run_free. */
    method MarkRunFree(run: ClusterRun) returns (ok: bool)
      requires Valid()
      modifies bytes
      ensures ok <==> run.Stop() <= run.start || run.Stop() <= total
      ensures Bits() == Marked(old(Bits()), run.start, run.Stop(), false)
    {
      hide Bit, Mask;
      var cluster: nat := run.start;
      ghost var before := Bits();
      while cluster < run.Stop()
        invariant run.start <= cluster && (cluster <= run.Stop() || cluster == run.start)
        invariant cluster <= total || cluster == run.start
        invariant Bits() == Marked(before, run.start, cluster, false)
      {
        var cleared := SetClusterFree(cluster);
        if !cleared {
          return false;
        }
        cluster := cluster + 1;
      }
      ok := true;
    }

    /** get_free_cluster_count. */
    method GetFreeClusterCount() returns (n: nat)
      requires Valid()
      ensures n == CountFree(Bits())
    {
      hide UsedAt;
      n := 0;
      var cluster := 0;
      while cluster < total
        invariant 0 <= cluster <= total
        invariant n == CountFree(Bits()[..cluster])
      {
        assert Bits()[..cluster + 1][..cluster] == Bits()[..cluster];
        if !UsedAt(cluster) {
          n := n + 1;
        }
        cluster := cluster + 1;
      }
      assert Bits()[..cluster] == Bits();
    }

    method FindFreeClusters(count: u64, strategy: AllocationStrategy) returns (r: Option<ClusterRun>)
      requires Valid()
      ensures if strategy.BestFit? then IsBestFit(Bits(), count, r) else IsFirstFit(Bits(), count, r)
    {
      match strategy {
        case FirstFit => r := FindFirstFit(count);
        case BestFit => r := FindBestFit(count);
        case NextFit => r := FindFirstFit(count);
      }
    }

    /** find_first_fit: one scan that counts the current free stretch. */
    method FindFirstFit(count: u64) returns (r: Option<ClusterRun>)
      requires Valid()
      ensures IsFirstFit(Bits(), count, r)
    {
      hide UsedAt, WindowFree, Segment;
      var currentStart: Option<nat> := None;
      var currentCount: nat := 0;
      ghost var bits := Bits();
      var cluster: nat := 0;
      while cluster < total
        invariant 0 <= cluster <= total
        invariant Stretch(bits, cluster, currentStart, currentCount)
        invariant currentCount < Need(count)
        invariant NoWindow(bits, Need(count), cluster)
      {
        ghost var start, length := currentStart, currentCount;
        var isFree := !UsedAt(cluster);
        assert isFree == !bits[cluster];
        if isFree {
          if currentStart.None? {
            currentStart := Some(cluster);
            currentCount := 1;
          } else {
            currentCount := currentCount + 1;
          }
          StretchGrows(bits, cluster, start, length);
          if currentCount >= count {
            FirstFound(bits, count, cluster, currentStart.value, currentCount);
            return Some(ClusterRun(currentStart.value, count));
          }
          StillNoWindow(bits, Need(count), cluster, currentStart.value, currentCount);
        } else {
          UsedNoWindow(bits, Need(count), cluster);
          currentStart := None;
          currentCount := 0;
        }
        cluster := cluster + 1;
      }
      NoneFound(bits, count);
      r := None;
    }

    /** find_best_fit: remembers the smallest sufficient stretch seen so far. */
    method FindBestFit(count: u64) returns (r: Option<ClusterRun>)
      requires Valid()
      ensures IsBestFit(Bits(), count, r)
    {
      var bestRun: Option<ClusterRun> := None;
      hide UsedAt, WindowFree, Segment;
      var currentStart: Option<nat> := None;
      var currentCount: nat := 0;
      ghost var bits := Bits();
      var cluster: nat := 0;
      while cluster < total
        invariant 0 <= cluster <= total
        invariant Stretch(bits, cluster, currentStart, currentCount)
        invariant BestSoFar(bits, Need(count), bestRun, cluster - currentCount)
      {
        var isFree := !UsedAt(cluster);
        assert isFree == !bits[cluster];
        if isFree {
          StretchGrows(bits, cluster, currentStart, currentCount);
          if currentStart.None? {
            currentStart := Some(cluster);
            currentCount := 1;
          } else {
            currentCount := currentCount + 1;
          }
        } else {
          StretchEnds(bits, Need(count), bestRun, cluster, currentStart, currentCount);
          if currentStart.Some? && currentCount >= count {
            if bestRun.None? || currentCount < bestRun.value.count {
              bestRun := Some(ClusterRun(currentStart.value, currentCount));
            }
          }
          currentStart := None;
          currentCount := 0;
        }
        cluster := cluster + 1;
      }
      StretchEnds(bits, Need(count), bestRun, cluster, currentStart, currentCount);
      if currentStart.Some? && currentCount >= count {
        if bestRun.None? || currentCount < bestRun.value.count {
          bestRun := Some(ClusterRun(currentStart.value, currentCount));
        }
      }
      BestOverall(bits, count, bestRun);
      if bestRun.Some? {
        r := Some(ClusterRun(bestRun.value.start, count));
      } else {
        r := None;
      }
    }
  }

  /** What the scan knows before `k`: the free stretch that ends there, if any. */
  predicate Stretch(bits: seq<bool>, k: nat, start: Option<nat>, count: nat) {
    && k <= |bits|
    && match start
       case None => count == 0 && (k == 0 || bits[k - 1])
       case Some(s) => count > 0 && s + count == k && WindowFree(bits, s, count) && (s == 0 || bits[s - 1])
  }

  lemma StretchGrows(bits: seq<bool>, k: nat, start: Option<nat>, count: nat)
    requires Stretch(bits, k, start, count) && k < |bits| && !bits[k]
    ensures Stretch(bits, k + 1, Some(if start.None? then k else start.value), count + 1)
  {
  }

  /** No sufficient window ends at or before `k`. */
  ghost predicate NoWindow(bits: seq<bool>, need: nat, k: nat) {
    forall s: nat :: s + need <= k ==> !WindowFree(bits, s, need)
  }

  lemma StillNoWindow(bits: seq<bool>, need: nat, k: nat, start: nat, count: nat)
    requires NoWindow(bits, need, k) && Stretch(bits, k + 1, Some(start), count) && count < need
    ensures NoWindow(bits, need, k + 1)
  {
    forall s: nat | s + need <= k + 1
      ensures !WindowFree(bits, s, need)
    {
      if s + need == k + 1 {
        assert s <= start - 1 < s + need;
      }
    }
  }

  lemma UsedNoWindow(bits: seq<bool>, need: nat, k: nat)
    requires NoWindow(bits, need, k) && k < |bits| && bits[k] && need > 0
    ensures NoWindow(bits, need, k + 1)
  {
    forall s: nat | s + need <= k + 1
      ensures !WindowFree(bits, s, need)
    {
      if s + need == k + 1 {
        assert s <= k < s + need;
      }
    }
  }

  lemma FirstFound(bits: seq<bool>, count: u64, k: nat, start: u64, length: nat)
    requires NoWindow(bits, Need(count), k) && Stretch(bits, k + 1, Some(start), length) && length == Need(count)
    ensures IsFirstFit(bits, count, Some(ClusterRun(start, count)))
  {
  }

  lemma NoneFound(bits: seq<bool>, count: nat)
    requires NoWindow(bits, Need(count), |bits|)
    ensures IsFirstFit(bits, count, None)
  {
  }

  ghost predicate BestSoFar(bits: seq<bool>, need: nat, best: Option<ClusterRun>, k: nat) {
    match best
    case Some(run) => IsBest(bits, need, run.start, run.count, k)
    case None => forall s: nat, n: nat :: Segment(bits, s, n) && s < k ==> n < need
  }

  lemma BestOverall(bits: seq<bool>, count: u64, best: Option<ClusterRun>)
    requires BestSoFar(bits, Need(count), best, |bits| + 1)
    ensures IsBestFit(bits, count, if best.None? then None else Some(ClusterRun(best.value.start, count)))
  {
    assert forall s: nat, n: nat :: Segment(bits, s, n) ==> s < |bits| + 1;
    if best.Some? {
      assert IsSmallest(bits, Need(count), best.value.start, best.value.count);
    }
  }

  /** When the stretch ending at `k` cannot be extended, taking it or not gives the best up to `k`. */
  lemma StretchEnds(bits: seq<bool>, need: nat, best: Option<ClusterRun>, k: nat, start: Option<nat>, count: nat)
    requires Stretch(bits, k, start, count) && need > 0 && |bits| < WORD_LIMIT
    requires k == |bits| || bits[k]
    requires BestSoFar(bits, need, best, k - count)
    ensures var take := start.Some? && count >= need && (best.None? || count < best.value.count);
            BestSoFar(bits, need, if take then Some(ClusterRun(start.value, count)) else best, k + 1)
  {
    hide WindowFree;
    forall s: nat, n: nat | Segment(bits, s, n) && k - count <= s <= k
      ensures start.Some? && s == start.value && n == count
    {
      SegmentAt(bits, k, start, count, s, n);
    }
    if start.Some? {
      assert Segment(bits, start.value, count);
    }
  }

  /** The only segment starting within the stretch is the stretch itself. */
  lemma SegmentAt(bits: seq<bool>, k: nat, start: Option<nat>, count: nat, s: nat, n: nat)
    requires Stretch(bits, k, start, count) && (k == |bits| || bits[k])
    requires Segment(bits, s, n) && k - count <= s <= k
    ensures start.Some? && s == start.value && n == count
  {
    if start.Some? {
      SegmentsApart(bits, start.value, count, s, n);
    }
  }
}
