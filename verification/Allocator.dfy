/** Conservation of clusters over whole runs, and the allocator object (crates/galleon2/src/allocation.rs). */
module ClusterAllocation {
  import opened RunLists
  import opened ClusterBitmaps
  import opened ClusterOwnership
  import opened EmptyRuns
  import opened WrappedRuns
  import opened Wrappers
  import opened Numbers

  // ---------------------------------------------------------------------
  // Counting

  ghost function UsedSet(bits: seq<bool>): (s: set<nat>)
    ensures forall c: nat :: c in s <==> c < |bits| && bits[c]
  {
    set c: nat | c < |bits| && bits[c]
  }

  lemma {:induction false} UsedAndFree(bits: seq<bool>)
    ensures |UsedSet(bits)| + CountFree(bits) == |bits|
    decreases |bits|
  {
    if bits != [] {
      var init, last := bits[..|bits| - 1], bits[|bits| - 1];
      UsedAndFree(init);
      assert forall c: nat :: c < |init| ==> init[c] == bits[c];
      if last {
        assert UsedSet(bits) == UsedSet(init) + {|init|};
      } else {
        assert UsedSet(bits) == UsedSet(init);
      }
    }
  }

  ghost function SetOf(runs: seq<ClusterRun>): (s: set<nat>) {
    if runs == [] then {}
    else SetOf(runs[..|runs| - 1]) + Range(runs[|runs| - 1].start, runs[|runs| - 1].count)
  }

  ghost function Range(start: nat, count: nat): (s: set<nat>)
    ensures |s| == count && forall c: nat :: c in s <==> start <= c < start + count
  {
    if count == 0 then {} else Range(start, count - 1) + {start + count - 1}
  }

  lemma {:induction false} SetOfMembers(runs: seq<ClusterRun>, c: nat)
    ensures c in SetOf(runs) <==> In(runs, c)
    decreases |runs|
  {
    hide In;
    if runs == [] {
      NotInEmpty(runs, c);
    } else {
      SetOfMembers(runs[..|runs| - 1], c);
      SnocForm(runs);
      InCons(runs[..|runs| - 1], runs[|runs| - 1], c);
    }
  }

  /** A canonical list has as many clusters as its counts say. */
  lemma {:induction false} SetOfSize(runs: seq<ClusterRun>)
    requires Canonical(runs)
    ensures |SetOf(runs)| == Sum(runs)
    ensures forall c: nat :: c in SetOf(runs) ==> runs != [] && c < runs[|runs| - 1].Limit()
    decreases |runs|
  {
    hide Canonical;
    if runs != [] {
      var init, last := runs[..|runs| - 1], runs[|runs| - 1];
      CanonicalSplit(runs);
      SetOfSize(init);
      assert SetOf(init) !! Range(last.start, last.count);
    }
  }

  ghost function PickFile(files: map<nat, RunList>): (f: nat)
    requires files != map[]
    ensures f in files
  {
    var f :| f in files;
    f
  }

  /** The sum of total_clusters over all files. */
  ghost function TotalOf(files: map<nat, RunList>): (n: nat)
    decreases |files|
  {
    if files == map[] then 0
    else files[PickFile(files)].totalClusters + TotalOf(files - {PickFile(files)})
  }

  ghost function OwnedSet(files: map<nat, RunList>): (s: set<nat>)
    decreases |files|
  {
    if files == map[] then {}
    else SetOf(files[PickFile(files)].runs) + OwnedSet(files - {PickFile(files)})
  }

  lemma {:induction false} OwnedSetMembers(files: map<nat, RunList>, c: nat)
    requires Exclusive(files)
    ensures c in OwnedSet(files) <==> Owned(files, c)
    decreases |files|
  {
    hide In, SetOf;
    if files != map[] {
      var f := PickFile(files);
      OwnedSetMembers(files - {f}, c);
      WithoutFile(files, f, c);
      OwnedBy(files, f, c);
      SetOfMembers(files[f].runs, c);
    }
  }

  lemma {:induction false} OwnedSetSize(files: map<nat, RunList>)
    requires Exclusive(files) && ListsValid(files)
    ensures |OwnedSet(files)| == TotalOf(files)
    decreases |files|
  {
    hide In, SetOf, Canonical, Sum;
    if files != map[] {
      var f := PickFile(files);
      var rest := files - {f};
      OwnedSetSize(rest);
      SetOfSize(files[f].runs);
      forall c: nat | c in SetOf(files[f].runs)
        ensures c !in OwnedSet(rest)
      {
        SetOfMembers(files[f].runs, c);
        OwnedSetMembers(rest, c);
        WithoutFile(files, f, c);
      }
      assert SetOf(files[f].runs) !! OwnedSet(rest);
    }
  }

  /**
   Theorem: when ownership is consistent, the free count, the reserved clusters
   and the totals of all files add up to the size of the disk.
   */
  lemma Conservation(s: State, reserved: set<nat>)
    requires Consistent(s, reserved)
    ensures CountFree(s.bits) + |reserved| + TotalOf(s.files) == |s.bits|
  {
    hide In, Owned, OwnedSet, TotalOf, CountFree, RunList.Valid;
    UsedAndFree(s.bits);
    OwnedSetSize(s.files);
    forall c: nat
      ensures c in OwnedSet(s.files) <==> Owned(s.files, c)
    {
      OwnedSetMembers(s.files, c);
    }
    assert UsedSet(s.bits) == reserved + OwnedSet(s.files);
    assert reserved !! OwnedSet(s.files);
  }

  // ---------------------------------------------------------------------
  // Runs

  lemma FitIsFree(strategy: AllocationStrategy, bits: seq<bool>, count: nat, run: ClusterRun)
    requires Fits(strategy, bits, count, Some(run)) && count > 0
    ensures run.count == count && WindowFree(bits, run.start, run.count)
  {
    if strategy.BestFit? {
      var n :| IsSmallest(bits, Need(count), run.start, n);
      assert WindowFree(bits, run.start, n);
    }
  }

  lemma NonEmptyTotal(s: State, reserved: set<nat>, f: nat)
    requires Consistent(s, reserved) && f in s.files
    ensures s.files[f].totalClusters > 0
  {
    var runs := s.files[f].runs;
    assert runs[|runs| - 1].Valid();
  }

  /** The search has one answer. */
  lemma FitUnique(strategy: AllocationStrategy, bits: seq<bool>, count: nat, a: ClusterRun, b: ClusterRun)
    requires Fits(strategy, bits, count, Some(a)) && Fits(strategy, bits, count, Some(b))
    ensures a == b
  {
    if strategy.BestFit? {
      var n :| IsSmallest(bits, Need(count), a.start, n);
      var m :| IsSmallest(bits, Need(count), b.start, m);
    }
  }

  /** Where a request for no clusters lands, a cluster is free. */
  lemma EmptyFit(strategy: AllocationStrategy, bits: seq<bool>, run: ClusterRun)
    requires Fits(strategy, bits, 0, Some(run))
    ensures run == ClusterRun(run.start, 0) && run.start < |bits| && !bits[run.start]
  {
    if strategy.BestFit? {
      var n :| IsSmallest(bits, Need(0), run.start, n);
    } else {
      assert WindowFree(bits, run.start, Need(0));
    }
  }

  lemma AllocateNone(strategy: AllocationStrategy, s: State, f: nat, r: Option<ClusterRun>, reserved: set<nat>)
    requires Consistent(s, reserved) && |s.bits| < WORD_LIMIT && Fits(strategy, s.bits, 0, r)
    ensures r.None? ==> Absorbs(strategy, s, f)
    ensures r.Some? ==> (Consistent(Take(s, f, r.value), reserved) <==> Absorbs(strategy, s, f))
  {
    hide Consistent, Take, Fits, EndsAt;
    if r.None? {
      NothingFits(strategy, s.bits);
    } else {
      EmptyFit(strategy, s.bits, r.value);
      TakeEmptyExactly(s, reserved, f, r.value.start);
      forall run | Fits(strategy, s.bits, 0, Some(run))
        ensures run == r.value
      {
        FitUnique(strategy, s.bits, 0, run, r.value);
      }
    }
  }

  lemma NothingFits(strategy: AllocationStrategy, bits: seq<bool>)
    requires Fits(strategy, bits, 0, None)
    ensures forall run :: !Fits(strategy, bits, 0, Some(run))
  {
    BestFitNone(bits, 0);
    forall c: nat | c < |bits|
      ensures bits[c]
    {
      assert !WindowFree(bits, c, Need(0));
    }
    forall run
      ensures !Fits(strategy, bits, 0, Some(run))
    {
      if Fits(strategy, bits, 0, Some(run)) {
        EmptyFit(strategy, bits, run);
      }
    }
  }

  /** Extending a file by nothing changes nothing. */
  lemma ExtendByNone(s: State, f: nat, reserved: set<nat>)
    requires Consistent(s, reserved) && f in s.files
    ensures Extension(s, f, 0).Some? && Take(s, f, Extension(s, f, 0).value) == s
  {
    hide Take, Added;
    var runs := s.files[f].runs;
    ExtensionRun(s, f, 0, reserved);
    assert EndsAt(runs, EndOf(s.files[f])) by { assert runs[|runs| - 1].Limit() == EndOf(s.files[f]); }
    TakeEmptyExactly(s, reserved, f, EndOf(s.files[f]));
  }

  /** An extension starts at the end of the file; it is there when its range is free or wraps. */
  lemma ExtensionRun(s: State, f: nat, n: u64, reserved: set<nat>)
    requires Consistent(s, reserved) && f in s.files
    ensures s.files[f].Valid() && s.files[f].runs != [] && EndOf(s.files[f]) < WORD_LIMIT
    ensures Extension(s, f, n)
            == if RangeFree(s.bits, ClusterRun(EndOf(s.files[f]), n)) then Some(ClusterRun(EndOf(s.files[f]), n)) else None
    ensures n == 0 || EndOf(s.files[f]) + n >= WORD_LIMIT ==> Extension(s, f, n).Some?
  {
    hide Added;
    var runs := s.files[f].runs;
    var last := runs[|runs| - 1];
    assert s.files[f].Valid() && last.Valid();
    EndExact(last);
    assert n == 0 || EndOf(s.files[f]) + n >= WORD_LIMIT ==>
        ClusterRun(EndOf(s.files[f]), n).Stop() <= EndOf(s.files[f]);
  }

  /** Extending a file past the last 64-bit number always breaks ownership. */
  lemma WrappingBreaks(s: State, f: nat, n: u64, reserved: set<nat>)
    requires Consistent(s, reserved) && f in s.files && EndOf(s.files[f]) + n >= WORD_LIMIT
    ensures Extension(s, f, n).Some? && !Consistent(Take(s, f, Extension(s, f, n).value), reserved)
  {
    hide Take, Consistent, Added, RunList.Valid;
    ExtensionRun(s, f, n, reserved);
    WrappingInvalid(s.files[f], n);
    InvalidTake(s, reserved, f, ClusterRun(EndOf(s.files[f]), n));
  }

  /** Theorem: a step keeps ownership if and only if it is legal. */
  lemma StepConsistent(strategy: AllocationStrategy, s: State, op: Op, r: Option<ClusterRun>, s': State, reserved: set<nat>)
    requires Consistent(s, reserved) && |s.bits| < WORD_LIMIT
    requires Step(strategy, s, op, r, s')
    ensures Consistent(s', reserved) <==> Legal(strategy, s, op)
    ensures |s'.bits| == |s.bits|
  {
    hide Consistent, Fits, WindowFree, Take, Give, GiveAll, Move, Extension, Absorbs, MayReturn;
    match op
    case Allocate(f, n) =>
      AllocateExactly(strategy, s, f, n, r, reserved);
    case Extend(f, n) =>
      if f in s.files {
        ExtendExactly(strategy, s, f, n, r, s', reserved);
      } else {
        ExtensionOfFile(s, f, n);
        AllocateExactly(strategy, s, f, n, r, reserved);
      }
    case Deallocate(f, run) =>
      GiveExactly(s, reserved, f, run);
      SameSize(s, f, run);
    case DeallocateAll(f) =>
      GiveAllConsistent(s, reserved, f);
      SameSize(s, f, ClusterRun(0, 0));
    case Defragment(f) =>
      if f in s.files && r.Some? {
        NonEmptyTotal(s, reserved, f);
        assert Fits(FirstFit, s.bits, s.files[f].totalClusters, r) by { FirstFits(s.bits, s.files[f].totalClusters, r); }
        FitIsFree(FirstFit, s.bits, s.files[f].totalClusters, r.value);
        FreeWindowValid(s.bits, r.value);
        MoveConsistent(s, reserved, f, r.value);
        SameSize(s, f, r.value);
      }
  }

  lemma FirstFits(bits: seq<bool>, count: nat, r: Option<ClusterRun>)
    requires IsFirstFit(bits, count, r)
    ensures Fits(FirstFit, bits, count, r)
  {
  }

  lemma ExtensionOfFile(s: State, f: nat, n: u64)
    ensures Extension(s, f, n).Some? ==> f in s.files
  {
  }

  lemma ExtendExactly(
      strategy: AllocationStrategy, s: State, f: nat, n: u64, r: Option<ClusterRun>, s': State, reserved: set<nat>)
    requires Consistent(s, reserved) && |s.bits| < WORD_LIMIT && f in s.files && Step(strategy, s, Extend(f, n), r, s')
    ensures Consistent(s', reserved) <==> EndOf(s.files[f]) + n < WORD_LIMIT
    ensures |s'.bits| == |s.bits|
  {
    hide Consistent, Fits, Take, Extension, Absorbs, RangeFree, RunList.Valid;
    ExtensionRun(s, f, n, reserved);
    if EndOf(s.files[f]) + n >= WORD_LIMIT {
      WrappingBreaks(s, f, n, reserved);
      SameSize(s, f, r.value);
    } else if n == 0 {
      ExtendByNone(s, f, reserved);
    } else if Extension(s, f, n).Some? {
      ExtensionValid(s, f, n, reserved);
      TakeConsistent(s, reserved, f, r.value);
      SameSize(s, f, r.value);
    } else {
      AllocateExactly(strategy, s, f, n, r, reserved);
    }
  }

  lemma AllocateExactly(strategy: AllocationStrategy, s: State, f: nat, n: u64, r: Option<ClusterRun>, reserved: set<nat>)
    requires Consistent(s, reserved) && |s.bits| < WORD_LIMIT && Fits(strategy, s.bits, n, r)
    ensures var s' := if r.Some? then Take(s, f, r.value) else s;
            (Consistent(s', reserved) <==> n > 0 || Absorbs(strategy, s, f)) && |s'.bits| == |s.bits|
  {
    hide Consistent, Take, Fits, Absorbs;
    if n > 0 {
      TakenStep(strategy, s, f, n, r, reserved);
    } else {
      AllocateNone(strategy, s, f, r, reserved);
      if r.Some? {
        SameSize(s, f, r.value);
      }
    }
  }

  lemma ExtensionValid(s: State, f: nat, n: u64, reserved: set<nat>)
    requires Consistent(s, reserved) && f in s.files && n > 0 && EndOf(s.files[f]) + n < WORD_LIMIT
    requires Extension(s, f, n).Some?
    ensures Extension(s, f, n).value == ClusterRun(EndOf(s.files[f]), n) && Extension(s, f, n).value.Valid()
    ensures WindowFree(s.bits, EndOf(s.files[f]), n)
  {
    hide Consistent, Extension;
    ExtensionRun(s, f, n, reserved);
    RangeOnDisk(s.bits, ClusterRun(EndOf(s.files[f]), n));
  }

  lemma FreeWindowValid(bits: seq<bool>, run: ClusterRun)
    requires |bits| < WORD_LIMIT && run.count > 0 && WindowFree(bits, run.start, run.count)
    ensures run.Valid()
  {
  }

  lemma SameSize(s: State, f: nat, run: ClusterRun)
    ensures |Take(s, f, run).bits| == |Give(s, f, run).bits| == |GiveAll(s, f).bits| == |s.bits|
    ensures f in s.files ==> |Move(s, f, run).bits| == |s.bits|
  {
  }

  lemma TakenStep(strategy: AllocationStrategy, s: State, f: nat, n: u64, r: Option<ClusterRun>, reserved: set<nat>)
    requires Consistent(s, reserved) && |s.bits| < WORD_LIMIT && n > 0 && Fits(strategy, s.bits, n, r)
    ensures r.Some? ==> Consistent(Take(s, f, r.value), reserved) && |Take(s, f, r.value).bits| == |s.bits|
  {
    hide Consistent, Take, Fits, WindowFree;
    if r.Some? {
      FitIsFree(strategy, s.bits, n, r.value);
      FreeWindowValid(s.bits, r.value);
      TakeConsistent(s, reserved, f, r.value);
      SameSize(s, f, r.value);
    }
  }

  /** A run of the allocator: states linked by steps. */
  ghost predicate IsRun(strategy: AllocationStrategy, states: seq<State>, ops: seq<Op>, results: seq<Option<ClusterRun>>) {
    && |states| == |ops| + 1 && |results| == |ops|
    && forall i :: 0 <= i < |ops| ==> Step(strategy, states[i], ops[i], results[i], states[i + 1])
  }

  ghost predicate LegalBefore(strategy: AllocationStrategy, states: seq<State>, ops: seq<Op>, k: nat)
    requires |states| == |ops| + 1 && k <= |ops|
  {
    forall i :: 0 <= i < k ==> Legal(strategy, states[i], ops[i])
  }

  /**
   Theorem: over every run of legal steps, no cluster has two owners, reserved
   clusters are never handed out or freed, and clusters are conserved.
   */
  lemma {:induction false} RunConserves(strategy: AllocationStrategy, states: seq<State>, ops: seq<Op>,
                                        results: seq<Option<ClusterRun>>, reserved: set<nat>, k: nat)
    requires IsRun(strategy, states, ops, results) && k <= |ops| && LegalBefore(strategy, states, ops, k)
    requires Consistent(states[0], reserved) && |states[0].bits| < WORD_LIMIT
    ensures Consistent(states[k], reserved) && |states[k].bits| == |states[0].bits|
    ensures CountFree(states[k].bits) + |reserved| + TotalOf(states[k].files) == |states[0].bits|
    decreases k
  {
    hide Consistent, Step, Legal;
    if k > 0 {
      RunConserves(strategy, states, ops, results, reserved, k - 1);
      StepConsistent(strategy, states[k - 1], ops[k - 1], results[k - 1], states[k - 1 + 1], reserved);
    }
    Conservation(states[k], reserved);
  }

  /** Theorem: ownership holds all along a run if and only if every step of it is legal. */
  lemma RunExactly(strategy: AllocationStrategy, states: seq<State>, ops: seq<Op>,
                   results: seq<Option<ClusterRun>>, reserved: set<nat>)
    requires IsRun(strategy, states, ops, results)
    requires Consistent(states[0], reserved) && |states[0].bits| < WORD_LIMIT
    ensures (forall k :: 0 <= k < |states| ==> Consistent(states[k], reserved)) <==>
              LegalBefore(strategy, states, ops, |ops|)
  {
    hide Consistent, Step, Legal;
    if LegalBefore(strategy, states, ops, |ops|) {
      forall k | 0 <= k < |states|
        ensures Consistent(states[k], reserved)
      {
        RunConserves(strategy, states, ops, results, reserved, k);
      }
    }
    if forall k :: 0 <= k < |states| ==> Consistent(states[k], reserved) {
      AllLegal(strategy, states, ops, results, reserved, |ops|);
    }
  }

  lemma {:induction false} AllLegal(strategy: AllocationStrategy, states: seq<State>, ops: seq<Op>,
                                    results: seq<Option<ClusterRun>>, reserved: set<nat>, k: nat)
    requires IsRun(strategy, states, ops, results) && k <= |ops| && |states[0].bits| < WORD_LIMIT
    requires forall k :: 0 <= k < |states| ==> Consistent(states[k], reserved)
    ensures LegalBefore(strategy, states, ops, k) && |states[k].bits| == |states[0].bits|
    decreases k
  {
    hide Consistent, Step, Legal;
    if k > 0 {
      AllLegal(strategy, states, ops, results, reserved, k - 1);
      StepConsistent(strategy, states[k - 1], ops[k - 1], results[k - 1], states[k - 1 + 1], reserved);
    }
  }

  function BlankDisk(size: nat): (bits: seq<bool>)
    ensures |bits| == size && forall c :: 0 <= c < size ==> !bits[c]
  {
    seq(size, i => false)
  }

  lemma FirstTake(size: nat, f: nat)
    ensures Take(State(BlankDisk(size), map[]), f, ClusterRun(0, 0))
            == State(BlankDisk(size), map[f := RunList([ClusterRun(0, 0)], 0)])
  {
    hide Added;
    TwoRuns(1);
    assert Marked(BlankDisk(size), 0, 0, true) == BlankDisk(size);
  }

  lemma SecondTake(size: nat, f: nat, n: u64)
    requires 0 < n <= size < WORD_LIMIT
    ensures Take(State(BlankDisk(size), map[f := RunList([ClusterRun(0, 0)], 0)]), f, ClusterRun(0, n))
            == State(Marked(BlankDisk(size), 0, n, true), map[f := RunList([ClusterRun(0, 0)], n)])
  {
    hide Added;
    TwoRuns(n);
    var files := map[f := RunList([ClusterRun(0, 0)], 0)];
    assert files[f := RunList([ClusterRun(0, 0)], n)] == map[f := RunList([ClusterRun(0, 0)], n)];
  }

  /**
   On a blank disk, allocating no clusters and then some to one file leaves the
   file with an empty run and the clusters in use without an owner.
   */
  lemma ZeroRequestLosesClusters(strategy: AllocationStrategy, size: nat, f: nat, n: u64)
    requires 0 < n <= size < WORD_LIMIT
    ensures var s0 := State(BlankDisk(size), map[]);
            var s1 := State(BlankDisk(size), map[f := RunList([ClusterRun(0, 0)], 0)]);
            var s2 := State(Marked(BlankDisk(size), 0, n, true), map[f := RunList([ClusterRun(0, 0)], n)]);
            && Step(strategy, s0, Allocate(f, 0), Some(ClusterRun(0, 0)), s1)
            && Step(strategy, s1, Allocate(f, n), Some(ClusterRun(0, n)), s2)
            && (forall c: nat :: c < n ==> s2.bits[c] && !Owned(s2.files, c))
  {
    hide Fits, Take, Owned, BlankDisk;
    BlankFit(strategy, BlankDisk(size), 0);
    BlankFit(strategy, BlankDisk(size), n);
    FirstTake(size, f);
    SecondTake(size, f, n);
    forall c: nat | c < n
      ensures !Owned(map[f := RunList([ClusterRun(0, 0)], n)], c)
    {
      EmptyOwnsNothing(f, n, c);
    }
  }

  lemma EmptyOwnsNothing(f: nat, n: u64, c: nat)
    ensures !Owned(map[f := RunList([ClusterRun(0, 0)], n)], c)
  {
  }

  lemma BlankFit(strategy: AllocationStrategy, bits: seq<bool>, count: u64)
    requires count <= |bits| && bits != [] && forall i :: 0 <= i < |bits| ==> !bits[i]
    ensures Fits(strategy, bits, count, Some(ClusterRun(0, count)))
  {
    assert Segment(bits, 0, |bits|);
    assert IsSmallest(bits, Need(count), 0, |bits|);
  }

  lemma TwoRuns(n: u64)
    requires 0 < n
    ensures Added(EMPTY_LIST, ClusterRun(0, 0)) == RunList([ClusterRun(0, 0)], 0)
    ensures Added(RunList([ClusterRun(0, 0)], 0), ClusterRun(0, n)) == RunList([ClusterRun(0, 0)], n)
  {
    hide InsertByStart, MergeAll, SortByStart, MergeNext, ClusterRun.CanMerge, ClusterRun.Merged;
    var a, b := ClusterRun(0, 0), ClusterRun(0, n);
    assert [] + [a] == [a] && [a] + [b] == [a, b];
    SortPair(a, b);
    MergeOneRun(a);
    MergeSnoc([a], b);
    EmptyRunSwallows(n);
    MergeTouching(a, b);
    AddedTotal(EMPTY_LIST, a);
    AddedTotal(RunList([a], 0), b);
  }

  lemma SortPair(a: ClusterRun, b: ClusterRun)
    requires a.start <= b.start
    ensures SortByStart([a]) == [a] && SortByStart([a, b]) == [a, b]
  {
    hide MergeAll, ClusterRun.CanMerge;
    assert [a][..0] == [] && [a, b][..1] == [a] && [] + [a] == [a] && [a] + [b] == [a, b];
  }

  lemma MergeOneRun(a: ClusterRun)
    ensures MergeAll([a]) == [a]
  {
    hide SortByStart, ClusterRun.CanMerge, ClusterRun.Merged;
    assert [a][..0] == [] && [] + [a] == [a];
  }

  lemma MergeTouching(a: ClusterRun, b: ClusterRun)
    requires a.CanMerge(b)
    ensures MergeNext([a], b) == [a.Merged(b)]
  {
    hide MergeAll, SortByStart, ClusterRun.CanMerge, ClusterRun.Merged;
    assert [a][..0] + [a.Merged(b)] == [a.Merged(b)];
  }

  /**
   One cluster held by a file at the start of the disk, extended by 2^64 - 1:
   the range is empty, and the file is left with an empty run and the cluster
   in use without an owner.
   */
  lemma WrappingLosesCluster(strategy: AllocationStrategy, bits: seq<bool>, f: nat)
    requires 0 < |bits| && bits[0]
    ensures var s0 := State(bits, map[f := RunList([ClusterRun(0, 1)], 1)]);
            var s1 := State(bits, map[f := RunList([ClusterRun(0, 0)], 0)]);
            && Step(strategy, s0, Extend(f, WORD_LIMIT - 1), Some(ClusterRun(1, WORD_LIMIT - 1)), s1)
            && s1.bits[0] && !Owned(s1.files, 0)
  {
    hide Added;
    var list := RunList([ClusterRun(0, 1)], 1);
    var s0 := State(bits, map[f := list]);
    var run := ClusterRun(1, WORD_LIMIT - 1);
    assert list.Valid() by { OneRun(); }
    AddedRuns(list, WORD_LIMIT - 1);
    MergedLast(list.runs[0], WORD_LIMIT - 1);
    assert Added(list, run).runs == [ClusterRun(0, 0)];
    assert Added(list, run) == RunList([ClusterRun(0, 0)], 0) by { AddedTotal(list, run); }
    assert Marked(bits, run.start, run.Stop(), true) == bits;
    assert s0.files[f := RunList([ClusterRun(0, 0)], 0)] == map[f := RunList([ClusterRun(0, 0)], 0)];
  }

  lemma OneRun()
    ensures RunList([ClusterRun(0, 1)], 1).Valid()
  {
    assert [ClusterRun(0, 1)][..0] == [];
  }

  /**
   Theorem: extending in place keeps every virtual cluster number of the file
   if and only if the file is not one run from cluster zero whose end and the
   count add up to 2^64.
   */
  lemma ExtensionKeepsNumbers(s: State, reserved: set<nat>, f: nat, count: u64)
    requires Consistent(s, reserved) && Extension(s, f, count).Some?
    ensures var before := s.files[f].runs;
            var after := Take(s, f, Extension(s, f, count).value).files[f].runs;
            before != [] &&
            ((forall v: u64 :: v < s.files[f].totalClusters ==> Scanned(after, 0, v) == Scanned(before, 0, v))
             <==> !(before[|before| - 1].start == 0 && EndOf(s.files[f]) + count == WORD_LIMIT))
  {
    hide Added, Scanned, Marked, Extension, Consistent, RunList.Valid;
    ExtensionOfFile(s, f, count);
    ExtensionRun(s, f, count, reserved);
    TakenRuns(s, reserved, f, count);
    if EndOf(s.files[f]) + count >= WORD_LIMIT {
      WrappingNumbers(s.files[f], count);
    } else if count == 0 {
      ExtendByNone(s, f, reserved);
    } else {
      ExtensionValid(s, f, count, reserved);
      forall v: u64 | v < s.files[f].totalClusters
        ensures Scanned(Added(s.files[f], ClusterRun(EndOf(s.files[f]), count)).runs, 0, v) == Scanned(s.files[f].runs, 0, v)
      {
        NumbersScanned(s.files[f], ClusterRun(EndOf(s.files[f]), count), v);
      }
    }
  }

  lemma TakenRuns(s: State, reserved: set<nat>, f: nat, count: u64)
    requires Consistent(s, reserved) && f in s.files && Extension(s, f, count).Some?
    ensures EndOf(s.files[f]) < WORD_LIMIT
    ensures Take(s, f, Extension(s, f, count).value).files[f] == Added(s.files[f], ClusterRun(EndOf(s.files[f]), count))
  {
    hide Added, Consistent, RunList.Valid, Extension;
    ExtensionRun(s, f, count, reserved);
    RangeOnDisk(s.bits, ClusterRun(EndOf(s.files[f]), count));
  }

  lemma NumbersScanned(list: RunList, r: ClusterRun, v: u64)
    requires list.Valid() && r.Valid() && list.runs != [] && r.start == EndOf(list) && v < list.totalClusters
    ensures Scanned(Added(list, r).runs, 0, v) == Scanned(list.runs, 0, v)
  {
    hide Added, Scanned, ClusterAt, Canonical, In, Sum, InWord;
    AppendKeepsNumbers(list, r, v);
    EndApart(list, r);
    AddRunCorrect(list, r, 0);
    CanonicalInWord(list.runs);
    CanonicalInWord(Added(list, r).runs);
    ScannedExact(list.runs, v);
    ScannedExact(Added(list, r).runs, v);
  }

  lemma EndApart(list: RunList, r: ClusterRun)
    requires Canonical(list.runs) && list.runs != [] && r.start == EndOf(list)
    ensures Apart(list.runs, r)
  {
    var k := |list.runs| - 1;
    assert list.runs[k].Valid();
    assert forall i :: 0 <= i < k ==> list.runs[i].Limit() < list.runs[k].start;
  }

  // ---------------------------------------------------------------------
  // The allocator object

  /** Clusters in use before any file exists are reserved. */
  lemma StartConsistent(bits: seq<bool>)
    ensures Consistent(State(bits, map[]), UsedSet(bits))
  {
  }

  class ClusterAllocator {
    const bitmap: ClusterBitmap
    const strategy: AllocationStrategy
    var allocatedRuns: map<nat, RunList>

    ghost function Value(): (s: State)
      reads this, bitmap.bytes
      requires bitmap.Valid()
    {
      State(bitmap.Bits(), allocatedRuns)
    }

    constructor (bitmap: ClusterBitmap, strategy: AllocationStrategy)
      requires bitmap.Valid()
      ensures this.bitmap == bitmap && this.strategy == strategy
      ensures Value() == State(bitmap.Bits(), map[])
      ensures Consistent(Value(), UsedSet(bitmap.Bits()))
    {
      this.bitmap := bitmap;
      this.strategy := strategy;
      allocatedRuns := map[];
      new;
      StartConsistent(bitmap.Bits());
    }

    /** Marks a run used and adds it to the file's list. */
    method TakeRun(file: nat, run: ClusterRun)
      requires bitmap.Valid()
      modifies this`allocatedRuns, bitmap.bytes
      ensures Value() == Take(old(Value()), file, run)
    {
      hide Marked, Added;
      var ok := bitmap.MarkRunUsed(run);
      if !ok {
        return;
      }
      var list := ListOf(allocatedRuns, file);
      var added := AddRun(list, run);
      allocatedRuns := allocatedRuns[file := added];
    }

    /** allocate_clusters; no run means insufficient space. */
    method AllocateClusters(file: nat, count: u64) returns (r: Option<ClusterRun>)
      requires bitmap.Valid()
      modifies this`allocatedRuns, bitmap.bytes
      ensures Step(strategy, old(Value()), Allocate(file, count), r, Value())
    {
      hide IsFirstFit, IsBestFit, Take;
      r := bitmap.FindFreeClusters(count, strategy);
      if r.Some? {
        TakeRun(file, r.value);
      }
    }

    /** extend_allocation: in place when the clusters after the last run are free. */
    method ExtendAllocation(file: nat, additional: u64) returns (r: Option<ClusterRun>)
      requires bitmap.Valid()
      modifies this`allocatedRuns, bitmap.bytes
      ensures Step(strategy, old(Value()), Extend(file, additional), r, Value())
    {
      hide Fits, Take;
      ghost var before := Value();
      if file in allocatedRuns && allocatedRuns[file].runs != [] {
        var runs := allocatedRuns[file].runs;
        var nextCluster := (runs[|runs| - 1].EndCluster() + 1) % WORD_LIMIT;
        var extended := ClusterRun(nextCluster, additional);
        var canExtend := AllFree(extended);
        if canExtend {
          TakeRun(file, extended);
          return Some(extended);
        }
      }
      r := AllocateClusters(file, additional);
    }

    /** The check of a run's range; the end of the range wraps. */
    method AllFree(run: ClusterRun) returns (free: bool)
      requires bitmap.Valid()
      ensures free <==> RangeFree(bitmap.Bits(), run)
    {
      var cluster: nat := run.start;
      while cluster < run.Stop()
        invariant run.start <= cluster
        invariant forall c :: run.start <= c < cluster ==> FreeAt(bitmap.Bits(), c)
      {
        var isFree := bitmap.IsClusterFree(cluster);
        assert isFree == FreeAt(bitmap.Bits(), cluster);
        if !isFree {
          return false;
        }
        cluster := cluster + 1;
      }
      free := true;
    }

    /** deallocate_clusters; `ok` is false when the run reaches past the end. */
    method DeallocateClusters(file: nat, run: ClusterRun) returns (ok: bool)
      requires bitmap.Valid()
      modifies this`allocatedRuns, bitmap.bytes
      ensures Step(strategy, old(Value()), Deallocate(file, run), None, Value())
      ensures ok <==> !PastEnd(bitmap.total, run)
    {
      ok := bitmap.MarkRunFree(run);
      if !ok {
        return;
      }
      if file in allocatedRuns {
        var list := Removed(allocatedRuns[file], run);
        allocatedRuns := allocatedRuns[file := list];
        if list.runs == [] {
          allocatedRuns := allocatedRuns - {file};
        }
      }
    }

    /** Frees the runs of a list one by one, up to the first one past the end. */
    method FreeAll(runs: seq<ClusterRun>) returns (ok: bool)
      requires bitmap.Valid()
      modifies bitmap.bytes
      ensures bitmap.Bits() == ClearedAll(old(bitmap.Bits()), Reached(bitmap.total, runs))
      ensures ok <==> !AnyPastEnd(bitmap.total, runs)
    {
      hide Marked, PastEnd;
      ghost var bits := bitmap.Bits();
      var i := 0;
      assert runs[..0] + Reached(|bits|, runs[0..]) == Reached(|bits|, runs) by { assert runs[0..] == runs; }
      while i < |runs|
        invariant 0 <= i <= |runs|
        invariant bitmap.Bits() == ClearedAll(bits, runs[..i]) && |bitmap.Bits()| == |bits|
        invariant runs[..i] + Reached(|bits|, runs[i..]) == Reached(|bits|, runs)
        invariant forall k :: 0 <= k < i ==> !PastEnd(|bits|, runs[k])
      {
        assert runs[..i + 1][..i] == runs[..i];
        var freed := FreeRun(runs[i]);
        if !freed {
          assert Reached(|bits|, runs[i..]) == [runs[i]];
          return false;
        }
        assert runs[i..][1..] == runs[i + 1..];
        i := i + 1;
      }
      assert runs[..i] == runs && runs[i..] == [] && runs + [] == runs;
      return true;
    }

    method FreeRun(run: ClusterRun) returns (ok: bool)
      requires bitmap.Valid()
      modifies bitmap.bytes
      ensures bitmap.Bits() == Marked(old(bitmap.Bits()), run.start, run.Stop(), false)
      ensures ok <==> !PastEnd(bitmap.total, run)
    {
      ok := bitmap.MarkRunFree(run);
    }

    method DeallocateAllClusters(file: nat)
      requires bitmap.Valid()
      modifies this`allocatedRuns, bitmap.bytes
      ensures Step(strategy, old(Value()), DeallocateAll(file), None, Value())
    {
      if file in allocatedRuns {
        var runs := allocatedRuns[file].runs;
        allocatedRuns := allocatedRuns - {file};
        var _ := FreeAll(runs);
      }
    }

    /** defragment_file; the run moved to, if there was room. */
    method DefragmentFile(file: nat) returns (ghost r: Option<ClusterRun>)
      requires bitmap.Valid()
      modifies this`allocatedRuns, bitmap.bytes
      ensures Step(strategy, old(Value()), Defragment(file), r, Value())
    {
      hide IsFirstFit, Marked, Added;
      r := None;
      if file in allocatedRuns {
        var current := allocatedRuns[file];
        var newRun := bitmap.FindFreeClusters(current.totalClusters, FirstFit);
        r := newRun;
        if newRun.Some? {
          var marked := bitmap.MarkRunUsed(newRun.value);
          if !marked {
            return;
          }
          var freed := FreeAll(current.runs);
          if !freed {
            return;
          }
          var list := AddRun(EMPTY_LIST, newRun.value);
          allocatedRuns := allocatedRuns[file := list];
        }
      }
    }
  }
}
