/** What each operation of the cluster allocator does to files and bits, and that it does nothing else. */
module ClusterEffects {
  import opened RunLists
  import opened ClusterBitmaps
  import opened ClusterOwnership
  import opened ClusterAllocation
  import opened Wrappers
  import opened Numbers

  /** Every file but `f` is as it was. */
  ghost predicate OthersKept(s: State, s': State, f: nat) {
    forall g :: g != f ==> (g in s'.files <==> g in s.files) && (g in s.files ==> s'.files[g] == s.files[g])
  }

  /** A cluster is used by a file, in the bitmap and in its list. */
  ghost predicate Holds(s: State, f: nat, c: nat) {
    f in s.files && In(s.files[f].runs, c)
  }

  /** `f` holds the clusters of `run` as well, which were free, and nothing else changes. */
  ghost predicate Gains(s: State, s': State, f: nat, run: ClusterRun) {
    && OthersKept(s, s', f) && |s'.bits| == |s.bits|
    && f in s'.files && s'.files[f].totalClusters == ListOf(s.files, f).totalClusters + run.count
    && (forall c: nat :: Holds(s', f, c) <==> Holds(s, f, c) || run.Has(c))
    && WindowFree(s.bits, run.start, run.count)
    && (forall c :: 0 <= c < |s.bits| ==> (s'.bits[c] <==> s.bits[c] || run.Has(c)))
    && CountFree(s'.bits) + run.count == CountFree(s.bits)
  }

  /** `f` no longer holds the clusters of which `lost` speaks, `n` in number, which are free now; nothing else changes. */
  ghost predicate Loses(s: State, s': State, f: nat, lost: iset<nat>, n: nat) {
    && OthersKept(s, s', f) && |s'.bits| == |s.bits|
    && (forall c: nat :: Holds(s', f, c) <==> Holds(s, f, c) && c !in lost)
    && (forall c :: 0 <= c < |s.bits| ==> (s'.bits[c] <==> s.bits[c] && c !in lost))
    && CountFree(s'.bits) == CountFree(s.bits) + n
  }

  // ---------------------------------------------------------------------
  // Totals

  /** The sum over all files does not depend on the order in which they are taken. */
  lemma {:induction false} TotalWithout(files: map<nat, RunList>, f: nat)
    requires f in files
    ensures TotalOf(files) == files[f].totalClusters + TotalOf(files - {f})
    decreases |files|
  {
    var g := PickFile(files);
    if g != f {
      TotalWithout(files - {g}, f);
      TotalWithout(files - {f}, g);
      assert files - {g} - {f} == files - {f} - {g};
    }
  }

  lemma TotalReplaced(files: map<nat, RunList>, f: nat, list: RunList)
    ensures TotalOf(files[f := list]) + ListOf(files, f).totalClusters == TotalOf(files) + list.totalClusters
  {
    var after := files[f := list];
    TotalWithout(after, f);
    if f in files {
      TotalWithout(files, f);
      assert after - {f} == files - {f};
    } else {
      assert after - {f} == files;
    }
  }

  /** Between consistent states the free count moves against the totals. */
  lemma FreeMoves(s: State, s': State, reserved: set<nat>)
    requires Consistent(s, reserved) && Consistent(s', reserved) && |s'.bits| == |s.bits|
    ensures CountFree(s'.bits) + TotalOf(s'.files) == CountFree(s.bits) + TotalOf(s.files)
  {
    hide Consistent, TotalOf, CountFree;
    Conservation(s, reserved);
    Conservation(s', reserved);
  }

  // ---------------------------------------------------------------------
  // Taking

  lemma TakeEffect(s: State, reserved: set<nat>, f: nat, run: ClusterRun)
    requires Consistent(s, reserved) && WindowFree(s.bits, run.start, run.count) && run.Valid()
    ensures Gains(s, Take(s, f, run), f, run)
  {
    hide Added, In, RunList.Valid, Owned, TotalOf, CountFree, PastEnd, Consistent, WindowFree;
    var s' := Take(s, f, run);
    WindowOnDisk(s.bits, run);
    forall c: nat
      ensures Holds(s', f, c) <==> Holds(s, f, c) || run.Has(c)
    {
      TakeMembers(s, reserved, f, run, c);
      NoneOfNone(s, f, c);
    }
    TakeConsistent(s, reserved, f, run);
    FreeMoves(s, s', reserved);
    TotalReplaced(s.files, f, Added(ListOf(s.files, f), run));
    TakenTotal(s, reserved, f, run);
  }

  lemma NoneOfNone(s: State, f: nat, c: nat)
    ensures In(ListOf(s.files, f).runs, c) <==> Holds(s, f, c)
  {
    if f !in s.files {
      NotInEmpty([], c);
    }
  }

  lemma TakenTotal(s: State, reserved: set<nat>, f: nat, run: ClusterRun)
    requires Consistent(s, reserved) && WindowFree(s.bits, run.start, run.count) && run.Valid()
    ensures Added(ListOf(s.files, f), run).totalClusters == ListOf(s.files, f).totalClusters + run.count
  {
    hide Added, In, Owned, Sum, Canonical, WindowFree, RunList.Valid, Consistent, ListOf, Apart;
    FreeIsApart(s, reserved, f, run);
    ListValid(s, reserved, f);
    GrownTotal(ListOf(s.files, f), run);
  }

  lemma GrownTotal(list: RunList, run: ClusterRun)
    requires list.Valid() && run.Valid() && Apart(list.runs, run)
    ensures Added(list, run).totalClusters == list.totalClusters + run.count
  {
    hide Added, RunList.Valid, ClusterRun.Valid, Apart;
    AddRunCorrect(list, run, 0);
    AddedTotal(list, run);
  }

  lemma ListValid(s: State, reserved: set<nat>, f: nat)
    requires Consistent(s, reserved)
    ensures ListOf(s.files, f).Valid()
  {
    hide RunList.Valid;
    EmptyListValid();
  }

  /**
   Theorem: allocating at least one cluster takes a free window of that size for
   the file, the lowest one unless the strategy is best fit, and fails exactly
   when there is none.
   */
  lemma AllocateEffect(
      strategy: AllocationStrategy, s: State, f: nat, n: u64, r: Option<ClusterRun>, s': State, reserved: set<nat>)
    requires Consistent(s, reserved) && |s.bits| < WORD_LIMIT && n > 0 && Step(strategy, s, Allocate(f, n), r, s')
    ensures r.None? ==> s' == s && forall a: nat :: !WindowFree(s.bits, a, n)
    ensures r.Some? ==> r.value.count == n && Gains(s, s', f, r.value)
    ensures r.Some? && !strategy.BestFit? ==> forall a :: 0 <= a < r.value.start ==> !WindowFree(s.bits, a, n)
    ensures r.Some? && strategy.BestFit? ==> exists k :: IsSmallest(s.bits, n, r.value.start, k)
  {
    hide Consistent, Take, WindowFree, Gains, Segment;
    if r.Some? {
      FitIsFree(strategy, s.bits, n, r.value);
      FreeWindowValid(s.bits, r.value);
      TakeEffect(s, reserved, f, r.value);
    } else {
      BestFitNone(s.bits, n);
      assert Need(n) == n;
    }
  }

  /**
   Theorem: extending a file by at least one cluster, short of 2^64, takes the
   clusters right after its last one when they are all free, and otherwise
   allocates.
   */
  lemma ExtendEffect(
      strategy: AllocationStrategy, s: State, f: nat, n: u64, r: Option<ClusterRun>, s': State, reserved: set<nat>)
    requires Consistent(s, reserved) && |s.bits| < WORD_LIMIT && n > 0 && Step(strategy, s, Extend(f, n), r, s')
    requires f in s.files ==> EndOf(s.files[f]) + n < WORD_LIMIT
    ensures if f in s.files && WindowFree(s.bits, EndOf(s.files[f]), n) then
              r == Some(ClusterRun(EndOf(s.files[f]), n)) && Gains(s, s', f, ClusterRun(EndOf(s.files[f]), n))
            else Step(strategy, s, Allocate(f, n), r, s')
  {
    hide Consistent, Take, WindowFree, Gains, RunList.Valid, Extension, Fits;
    if f in s.files {
      ExtensionRun(s, f, n, reserved);
      var run := ClusterRun(EndOf(s.files[f]), n);
      WindowIsRange(s.bits, run);
      if Extension(s, f, n).Some? {
        ExtensionValid(s, f, n, reserved);
        TakeEffect(s, reserved, f, run);
      }
    } else {
      ExtensionOfFile(s, f, n);
    }
  }

  lemma WindowIsRange(bits: seq<bool>, run: ClusterRun)
    requires run.Limit() < WORD_LIMIT
    ensures WindowFree(bits, run.start, run.count) && run.count > 0 ==> RangeFree(bits, run)
  {
  }

  // ---------------------------------------------------------------------
  // Giving back

  /** Theorem: returning a run that the file holds frees exactly its clusters. */
  lemma DeallocateEffect(
      strategy: AllocationStrategy, s: State, f: nat, run: ClusterRun, r: Option<ClusterRun>, s': State, reserved: set<nat>)
    requires Consistent(s, reserved) && Step(strategy, s, Deallocate(f, run), r, s')
    requires f in s.files && run in s.files[f].runs
    ensures Loses(s, s', f, (iset c: nat | run.Has(c)), run.count)
    ensures f in s'.files ==> s'.files[f].totalClusters + run.count == s.files[f].totalClusters
  {
    hide In, RunList.Valid, Owned, TotalOf, CountFree, Consistent;
    ValidOf(s, reserved, f);
    var list' := Removed(s.files[f], run);
    RemovedTotal(s.files[f], run);
    hide Removed;
    RemovedCorrect(s.files[f], run, 0);
    GiveConsistent(s, reserved, f, run);
    HeldOnDisk(s, reserved, f, run);
    forall c: nat
      ensures Holds(s', f, c) <==> Holds(s, f, c) && !run.Has(c)
    {
      RemovedCorrect(s.files[f], run, c);
      if f !in s'.files {
        NotInEmpty(list'.runs, c);
      }
    }
    FreeMoves(s, s', reserved);
    TotalReplaced(s.files, f, list');
    TotalDropped(s.files[f := list'], f);
  }

  lemma ValidOf(s: State, reserved: set<nat>, f: nat)
    requires Consistent(s, reserved) && f in s.files
    ensures s.files[f].Valid() && s.files[f].runs != []
  {
  }

  lemma HeldOnDisk(s: State, reserved: set<nat>, f: nat, run: ClusterRun)
    requires Consistent(s, reserved) && f in s.files && run in s.files[f].runs && run.Valid()
    ensures !PastEnd(|s.bits|, run) && run.Stop() == run.Limit()
  {
    hide RunList.Valid, In, Owned, Consistent;
    FileOnDisk(s, reserved, f);
  }

  lemma RemovedTotal(list: RunList, run: ClusterRun)
    requires list.Valid() && run in list.runs
    ensures Removed(list, run).totalClusters + run.count == list.totalClusters
    ensures Removed(list, run).runs == [] ==> Removed(list, run).totalClusters == 0
  {
    hide Canonical, Sum;
    RemovedCorrect(list, run, 0);
    RemovedAt(list, IndexOf(list.runs, run).value, 0);
    SumNone();
  }

  lemma TotalDropped(files: map<nat, RunList>, f: nat)
    requires f in files && (files[f].runs == [] ==> files[f].totalClusters == 0)
    ensures TotalOf(DropIfEmpty(files, f)) == TotalOf(files)
  {
    TotalWithout(files, f);
  }

  /** Returning clusters none of which is in use changes nothing. */
  lemma DeallocateNothing(
      strategy: AllocationStrategy, s: State, f: nat, run: ClusterRun, r: Option<ClusterRun>, s': State, reserved: set<nat>)
    requires Consistent(s, reserved) && Step(strategy, s, Deallocate(f, run), r, s')
    requires !(f in s.files && run in s.files[f].runs) && MayReturn(s, f, run)
    ensures s' == s
  {
    hide Consistent, Give;
    GiveUntracked(s, reserved, f, run);
    assert Marked(s.bits, run.start, run.Stop(), false) == s.bits;
  }

  /**
   Theorem: deallocating all of a file forgets it and frees exactly the clusters
   of its list, as many as its total; a file that is not there changes nothing.
   */
  lemma DeallocateAllEffect(
      strategy: AllocationStrategy, s: State, f: nat, r: Option<ClusterRun>, s': State, reserved: set<nat>)
    requires Consistent(s, reserved) && Step(strategy, s, DeallocateAll(f), r, s')
    ensures f !in s'.files
    ensures Loses(s, s', f, (iset c: nat | Holds(s, f, c)), ListOf(s.files, f).totalClusters)
  {
    hide In, RunList.Valid, Owned, TotalOf, CountFree, ClearedAll, Reached;
    if f in s.files {
      FileOnDisk(s, reserved, f);
      ValidList(s, reserved, f);
      forall c: nat | c < |s.bits|
        ensures s'.bits[c] <==> s.bits[c] && !In(s.files[f].runs, c)
      {
        ClearedMembers(s.bits, s.files[f].runs, c);
      }
      GiveAllConsistent(s, reserved, f);
      FreeMoves(s, s', reserved);
      TotalWithout(s.files, f);
    }
  }

  /**
   Theorem: defragmenting a file moves it to the lowest free window of its size,
   its only run from then on, and frees the clusters it had; without such a
   window, or without the file, nothing changes.
   */
  lemma DefragmentEffect(
      strategy: AllocationStrategy, s: State, f: nat, r: Option<ClusterRun>, s': State, reserved: set<nat>)
    requires Consistent(s, reserved) && |s.bits| < WORD_LIMIT && Step(strategy, s, Defragment(f), r, s')
    ensures r.None? ==> s' == s && (f in s.files ==> forall a: nat :: !WindowFree(s.bits, a, s.files[f].totalClusters))
    ensures r.Some? ==>
              var run := r.value;
              && f in s.files && run.count == s.files[f].totalClusters && WindowFree(s.bits, run.start, run.count)
              && (forall a :: 0 <= a < run.start ==> !WindowFree(s.bits, a, run.count))
              && OthersKept(s, s', f) && |s'.bits| == |s.bits|
              && f in s'.files && s'.files[f] == RunList([run], run.count)
              && (forall c :: 0 <= c < |s.bits| ==>
                    (s'.bits[c] <==> (s.bits[c] && !Holds(s, f, c)) || run.Has(c)))
              && CountFree(s'.bits) == CountFree(s.bits)
  {
    hide In, RunList.Valid, Owned, TotalOf, CountFree, ClearedAll, Reached, Added, AnyPastEnd, WindowFree, Consistent;
    if r.Some? {
      var run := r.value;
      NonEmptyTotal(s, reserved, f);
      FreeWindowValid(s.bits, run);
      WindowOnDisk(s.bits, run);
      FileOnDisk(s, reserved, f);
      ValidList(s, reserved, f);
      OneRunList(run);
      var taken := Marked(s.bits, run.start, run.Limit(), true);
      forall c: nat | c < |s.bits|
        ensures s'.bits[c] <==> (s.bits[c] && !Holds(s, f, c)) || run.Has(c)
      {
        ClearedMembers(taken, s.files[f].runs, c);
        FreeNotHeld(s, reserved, f, run, c);
      }
      MoveConsistent(s, reserved, f, run);
      FreeMoves(s, s', reserved);
      TotalReplaced(s.files, f, RunList([run], run.count));
    } else if f in s.files {
      NonEmptyTotal(s, reserved, f);
      assert Need(s.files[f].totalClusters) == s.files[f].totalClusters;
    }
  }

  lemma OneRunList(run: ClusterRun)
    ensures Added(EMPTY_LIST, run) == RunList([run], run.count)
  {
    hide MergeAll, SortByStart;
    AddedTotal(EMPTY_LIST, run);
    assert [] + [run] == [run];
    SortPair(run, run);
    MergeOneRun(run);
  }

  lemma FreeNotHeld(s: State, reserved: set<nat>, f: nat, run: ClusterRun, c: nat)
    requires Consistent(s, reserved) && WindowFree(s.bits, run.start, run.count)
    ensures run.Has(c) ==> !Holds(s, f, c)
  {
    hide In, RunList.Valid;
    if run.Has(c) {
      FreeNotIn(s, reserved, f, c);
      NoneOfNone(s, f, c);
    }
  }
}
