/** Cluster runs and run lists (crates/galleon2/src/allocation.rs). */
module RunLists {
  import opened Wrappers
  import opened Numbers

  datatype ClusterRun = ClusterRun(start: u64, count: u64) {
    /** end_cluster, with the wrap-around of 64-bit arithmetic. */
    function EndCluster(): (e: u64) {
      (start + count + WORD_LIMIT - 1) % WORD_LIMIT
    }

    predicate CanMerge(other: ClusterRun) {
      || (EndCluster() + 1) % WORD_LIMIT == other.start
      || (other.EndCluster() + 1) % WORD_LIMIT == start
    }

    function Merged(other: ClusterRun): (r: ClusterRun) {
      var first := if start <= other.start then start else other.start;
      var last := if EndCluster() >= other.EndCluster() then EndCluster() else other.EndCluster();
      ClusterRun(first, (last + WORD_LIMIT - first + 1) % WORD_LIMIT)
    }

    /** The cluster just past the run. */
    function Limit(): (e: nat) {
      start + count
    }

    /** Where the source's ranges over the run stop: the sum wraps, and such a range is empty. */
    function Stop(): (e: u64)
      ensures Limit() < WORD_LIMIT ==> e == Limit()
      ensures Limit() >= WORD_LIMIT ==> e < start
    {
      (start + count) % WORD_LIMIT
    }

    /** A non-empty run within the 64-bit range. */
    predicate Valid() {
      count > 0 && start + count < WORD_LIMIT
    }

    predicate Has(c: nat) {
      start <= c < start + count
    }
  }

  /** Within the 64-bit range a non-empty run ends where arithmetic says. */
  lemma EndExact(r: ClusterRun)
    requires r.Valid()
    ensures r.EndCluster() == r.start + r.count - 1
  {
  }

  /** For non-empty runs in start order that do not overlap, merging joins adjacent runs and nothing else. */
  lemma MergeExact(a: ClusterRun, b: ClusterRun)
    requires a.Valid() && b.Valid() && a.Limit() <= b.start
    ensures a.CanMerge(b) <==> a.Limit() == b.start
    ensures a.CanMerge(b) ==> a.Merged(b) == ClusterRun(a.start, a.count + b.count)
  {
    EndExact(a);
    EndExact(b);
  }

  // ---------------------------------------------------------------------
  // Lists of runs

  ghost predicate In(runs: seq<ClusterRun>, c: nat) {
    exists i :: 0 <= i < |runs| && runs[i].Has(c)
  }

  function Sum(runs: seq<ClusterRun>): (n: nat) {
    if runs == [] then 0 else Sum(runs[..|runs| - 1]) + runs[|runs| - 1].count
  }

  predicate AllValid(runs: seq<ClusterRun>) {
    forall i :: 0 <= i < |runs| ==> runs[i].Valid()
  }

  /** In start order and not overlapping. */
  predicate Separated(runs: seq<ClusterRun>) {
    AllValid(runs) && forall i, j :: 0 <= i < j < |runs| ==> runs[i].Limit() <= runs[j].start
  }

  /** In start order with a gap between any two: nothing is left to merge. */
  predicate Canonical(runs: seq<ClusterRun>) {
    AllValid(runs) && forall i, j :: 0 <= i < j < |runs| ==> runs[i].Limit() < runs[j].start
  }

  /** The run shares no cluster with the list. */
  predicate Apart(runs: seq<ClusterRun>, r: ClusterRun) {
    forall i :: 0 <= i < |runs| ==> runs[i].Limit() <= r.start || r.Limit() <= runs[i].start
  }

  /** sort_by_key on the start cluster: stable insertion of the last element into the sorted rest. */
  function InsertByStart(runs: seq<ClusterRun>, r: ClusterRun): (s: seq<ClusterRun>) {
    if runs == [] || runs[|runs| - 1].start <= r.start then runs + [r]
    else InsertByStart(runs[..|runs| - 1], r) + [runs[|runs| - 1]]
  }

  function SortByStart(runs: seq<ClusterRun>): (s: seq<ClusterRun>) {
    if runs == [] then [] else InsertByStart(SortByStart(runs[..|runs| - 1]), runs[|runs| - 1])
  }

  /** One turn of the merge loop: the next run extends the last one or is appended. */
  function MergeNext(merged: seq<ClusterRun>, r: ClusterRun): (s: seq<ClusterRun>) {
    if merged != [] && merged[|merged| - 1].CanMerge(r) then
      merged[..|merged| - 1] + [merged[|merged| - 1].Merged(r)]
    else merged + [r]
  }

  function MergeAll(runs: seq<ClusterRun>): (s: seq<ClusterRun>) {
    if runs == [] then [] else MergeNext(MergeAll(runs[..|runs| - 1]), runs[|runs| - 1])
  }

  datatype RunList = RunList(runs: seq<ClusterRun>, totalClusters: u64) {
    /** The invariant every operation keeps: canonical, with the right total. */
    predicate Valid() {
      Canonical(runs) && totalClusters == Sum(runs)
    }
  }

  /** The cluster just past a list. */
  function EndOf(list: RunList): (e: nat) {
    if list.runs == [] then 0 else list.runs[|list.runs| - 1].Limit()
  }

  const EMPTY_LIST: RunList := RunList([], 0)

  function Added(list: RunList, r: ClusterRun): (s: RunList) {
    RunList(MergeAll(SortByStart(list.runs + [r])), (list.totalClusters + r.count) % WORD_LIMIT)
  }

  /** add_run, with the merge loop of sort_and_merge. */
  method AddRun(list: RunList, r: ClusterRun) returns (s: RunList)
    ensures s == Added(list, r)
  {
    var sorted := SortByStart(list.runs + [r]);
    var merged: seq<ClusterRun> := [];
    var i := 0;
    while i < |sorted|
      invariant 0 <= i <= |sorted|
      invariant merged == MergeAll(sorted[..i])
    {
      var run := sorted[i];
      assert sorted[..i + 1][..i] == sorted[..i];
      if merged != [] {
        var last := merged[|merged| - 1];
        if last.CanMerge(run) {
          merged := merged[|merged| - 1 := last.Merged(run)];
        } else {
          merged := merged + [run];
        }
      } else {
        merged := merged + [run];
      }
      i := i + 1;
    }
    assert sorted[..i] == sorted;
    s := RunList(merged, (list.totalClusters + r.count) % WORD_LIMIT);
  }

  // ---------------------------------------------------------------------

  lemma SumSnoc(runs: seq<ClusterRun>, r: ClusterRun)
    ensures Sum(runs + [r]) == Sum(runs) + r.count
  {
    assert (runs + [r])[..|runs|] == runs;
  }

  lemma SnocForm(runs: seq<ClusterRun>)
    requires runs != []
    ensures runs == runs[..|runs| - 1] + [runs[|runs| - 1]]
  {
  }

  lemma SeparatedSplit(runs: seq<ClusterRun>)
    requires Separated(runs) && runs != []
    ensures var init, last := runs[..|runs| - 1], runs[|runs| - 1];
            Separated(init) && last.Valid() && (init != [] ==> init[|init| - 1].Limit() <= last.start)
  {
  }

  lemma CanonicalSplit(runs: seq<ClusterRun>)
    requires Canonical(runs) && runs != []
    ensures var init, last := runs[..|runs| - 1], runs[|runs| - 1];
            Canonical(init) && last.Valid() && (init != [] ==> init[|init| - 1].Limit() < last.start)
  {
  }

  lemma CanonicalSeparated(runs: seq<ClusterRun>)
    requires Canonical(runs)
    ensures Separated(runs)
  {
  }

  /** Sorting a list that is already in order changes nothing. */
  lemma {:induction false} SortSorted(runs: seq<ClusterRun>)
    requires Separated(runs)
    ensures SortByStart(runs) == runs
    decreases |runs|
  {
    hide Separated;
    if runs != [] {
      SeparatedSplit(runs);
      SnocForm(runs);
      SortSorted(runs[..|runs| - 1]);
    }
  }

  lemma InCons(runs: seq<ClusterRun>, r: ClusterRun, c: nat)
    ensures In(runs + [r], c) <==> In(runs, c) || r.Has(c)
  {
    var s := runs + [r];
    if In(runs, c) {
      var i :| 0 <= i < |runs| && runs[i].Has(c);
      assert s[i].Has(c);
    }
    if r.Has(c) {
      assert s[|runs|].Has(c);
    }
  }

  lemma {:induction false} InsertMembers(runs: seq<ClusterRun>, r: ClusterRun, c: nat)
    ensures In(InsertByStart(runs, r), c) <==> In(runs, c) || r.Has(c)
    ensures Sum(InsertByStart(runs, r)) == Sum(runs) + r.count
    decreases |runs|
  {
    hide In, Sum;
    if runs == [] || runs[|runs| - 1].start <= r.start {
      InCons(runs, r, c);
      SumSnoc(runs, r);
    } else {
      var init, last := runs[..|runs| - 1], runs[|runs| - 1];
      assert runs == init + [last];
      InsertMembers(init, r, c);
      InCons(init, last, c);
      SumSnoc(init, last);
      InCons(InsertByStart(init, r), last, c);
      SumSnoc(InsertByStart(init, r), last);
    }
  }

  /** The last run of an insertion is the later of the two. */
  lemma InsertLast(runs: seq<ClusterRun>, r: ClusterRun)
    ensures var s := InsertByStart(runs, r);
            s != [] && (s[|s| - 1] == r || (runs != [] && s[|s| - 1] == runs[|runs| - 1]))
  {
  }

  lemma SeparatedSnoc(runs: seq<ClusterRun>, r: ClusterRun)
    requires Separated(runs) && r.Valid()
    requires runs == [] || runs[|runs| - 1].Limit() <= r.start
    ensures Separated(runs + [r])
  {
    if runs != [] {
      var last := runs[|runs| - 1];
      forall i | 0 <= i < |runs|
        ensures runs[i].Limit() <= r.start
      {
        if i < |runs| - 1 {
          assert runs[i].Limit() <= last.start;
        }
      }
    }
  }

  lemma {:induction false} InsertSeparated(runs: seq<ClusterRun>, r: ClusterRun)
    requires Separated(runs) && r.Valid() && Apart(runs, r)
    ensures Separated(InsertByStart(runs, r))
    decreases |runs|
  {
    if runs == [] || runs[|runs| - 1].start <= r.start {
      SeparatedSnoc(runs, r);
    } else {
      var init, last := runs[..|runs| - 1], runs[|runs| - 1];
      InsertSeparated(init, r);
      InsertLast(init, r);
      SeparatedSnoc(InsertByStart(init, r), last);
    }
  }

  lemma CanonicalSnoc(runs: seq<ClusterRun>, r: ClusterRun)
    requires Canonical(runs) && r.Valid()
    requires runs == [] || runs[|runs| - 1].Limit() < r.start
    ensures Canonical(runs + [r])
  {
    if runs != [] {
      var last := runs[|runs| - 1];
      forall i | 0 <= i < |runs|
        ensures runs[i].Limit() < r.start
      {
        if i < |runs| - 1 {
          assert runs[i].Limit() < last.start;
        }
      }
    }
  }

  lemma MergeJoinForm(init: seq<ClusterRun>, last: ClusterRun, r: ClusterRun)
    requires last.Valid() && r.Valid() && last.Limit() == r.start
    ensures MergeNext(init + [last], r) == init + [ClusterRun(last.start, last.count + r.count)]
  {
    hide ClusterRun.CanMerge, ClusterRun.Merged;
    MergeExact(last, r);
    assert (init + [last])[..|init|] == init;
  }

  /** The next run touches the last one: the two become one. */
  lemma MergeJoins(init: seq<ClusterRun>, last: ClusterRun, r: ClusterRun, c: nat)
    requires Canonical(init + [last]) && r.Valid() && last.Limit() == r.start
    ensures var joined := ClusterRun(last.start, last.count + r.count);
            && MergeNext(init + [last], r) == init + [joined]
            && Canonical(init + [joined])
            && Sum(init + [joined]) == Sum(init + [last]) + r.count
            && (In(init + [joined], c) <==> In(init + [last], c) || r.Has(c))
  {
    hide Canonical, In, Sum, MergeNext;
    var all, joined := init + [last], ClusterRun(last.start, last.count + r.count);
    CanonicalSplit(all);
    assert all[..|all| - 1] == init;
    MergeJoinForm(init, last, r);
    CanonicalSnoc(init, joined);
    SumSnoc(init, last);
    SumSnoc(init, joined);
    InCons(init, last, c);
    InCons(init, joined, c);
  }

  /** The next run leaves a gap: it is appended. */
  lemma MergeAppends(merged: seq<ClusterRun>, r: ClusterRun, c: nat)
    requires Canonical(merged) && r.Valid()
    requires merged == [] || merged[|merged| - 1].Limit() < r.start
    ensures && MergeNext(merged, r) == merged + [r]
            && Canonical(merged + [r])
            && Sum(merged + [r]) == Sum(merged) + r.count
            && (In(merged + [r], c) <==> In(merged, c) || r.Has(c))
  {
    hide Canonical, In, Sum, ClusterRun.CanMerge, ClusterRun.Merged;
    if merged != [] {
      CanonicalSplit(merged);
      MergeExact(merged[|merged| - 1], r);
    }
    CanonicalSnoc(merged, r);
    SumSnoc(merged, r);
    InCons(merged, r, c);
  }

  lemma MergeNextCanonical(merged: seq<ClusterRun>, r: ClusterRun, c: nat)
    requires Canonical(merged) && r.Valid()
    requires merged == [] || merged[|merged| - 1].Limit() <= r.start
    ensures var s := MergeNext(merged, r);
            && Canonical(s) && s != [] && s[|s| - 1].Limit() == r.Limit()
            && Sum(s) == Sum(merged) + r.count
            && (In(s, c) <==> In(merged, c) || r.Has(c))
  {
    hide Canonical, In, Sum, MergeNext;
    if merged != [] && merged[|merged| - 1].Limit() == r.start {
      SnocForm(merged);
      MergeJoins(merged[..|merged| - 1], merged[|merged| - 1], r, c);
    } else {
      MergeAppends(merged, r, c);
    }
  }

  lemma {:induction false} MergeAllCanonical(runs: seq<ClusterRun>, c: nat)
    requires Separated(runs)
    ensures var s := MergeAll(runs);
            && Canonical(s) && Sum(s) == Sum(runs)
            && (In(s, c) <==> In(runs, c))
            && (runs != [] ==> s != [] && s[|s| - 1].Limit() == runs[|runs| - 1].Limit())
            && (runs == [] ==> s == [])
    decreases |runs|
  {
    if runs != [] {
      hide Canonical, In, Sum, MergeNext, Separated;
      var init, last := runs[..|runs| - 1], runs[|runs| - 1];
      SnocForm(runs);
      SeparatedSplit(runs);
      MergeAllCanonical(init, c);
      InCons(init, last, c);
      SumSnoc(init, last);
      MergeNextCanonical(MergeAll(init), last, c);
    }
  }

  /**
   Theorem: adding a run that is non-empty and disjoint from the list keeps the
   list sorted, disjoint and maximally merged, adds exactly the run's clusters,
   and keeps the total right.
   */
  lemma AddRunCorrect(list: RunList, r: ClusterRun, c: nat)
    requires list.Valid() && r.Valid() && Apart(list.runs, r)
    ensures Added(list, r).Valid() && list.totalClusters + r.count < WORD_LIMIT
    ensures In(Added(list, r).runs, c) <==> In(list.runs, c) || r.Has(c)
  {
    hide Canonical, In, Sum, Separated, MergeAll, InsertByStart;
    CanonicalSeparated(list.runs);
    SortAppended(list.runs, r);
    InsertMembers(list.runs, r, c);
    InsertSeparated(list.runs, r);
    MergeAllCanonical(InsertByStart(list.runs, r), c);
    CanonicalInWord(MergeAll(InsertByStart(list.runs, r)));
  }

  lemma SortAppended(runs: seq<ClusterRun>, r: ClusterRun)
    requires Separated(runs)
    ensures SortByStart(runs + [r]) == InsertByStart(runs, r)
  {
    hide Separated, InsertByStart;
    var all := runs + [r];
    assert all[..|all| - 1] == runs;
    SortSorted(runs);
  }

  lemma {:induction false} MergeCanonical(runs: seq<ClusterRun>)
    requires Canonical(runs)
    ensures MergeAll(runs) == runs
    decreases |runs|
  {
    hide Canonical, In, Sum, MergeNext;
    if runs != [] {
      var init, last := runs[..|runs| - 1], runs[|runs| - 1];
      SnocForm(runs);
      CanonicalSplit(runs);
      MergeCanonical(init);
      MergeAppends(init, last, 0);
    }
  }

  // ---------------------------------------------------------------------
  // Virtual cluster numbers

  /** The scan of find_cluster from a run on, whose clusters are numbered from `vcn`; sums wrap. */
  function Scanned(runs: seq<ClusterRun>, vcn: u64, virtual: u64): (r: Option<u64>) {
    if runs == [] then None
    else
      var next := (vcn + runs[0].count) % WORD_LIMIT;
      if vcn <= virtual < next then Some((runs[0].start + (virtual - vcn)) % WORD_LIMIT)
      else Scanned(runs[1..], next, virtual)
  }

  /** find_cluster: the cluster at a virtual cluster number. */
  method FindCluster(runs: seq<ClusterRun>, virtual: u64) returns (r: Option<u64>)
    ensures r == Scanned(runs, 0, virtual)
    ensures InWord(runs) ==> r == ClusterAt(runs, virtual)
  {
    if InWord(runs) {
      ScannedExact(runs, virtual);
    }
    var vcn: u64 := 0;
    var i := 0;
    assert runs[0..] == runs;
    while i < |runs|
      invariant 0 <= i <= |runs|
      invariant Scanned(runs[i..], vcn, virtual) == Scanned(runs, 0, virtual)
    {
      var run := runs[i];
      assert runs[i..][1..] == runs[i + 1..];
      var next := (vcn + run.count) % WORD_LIMIT;
      if vcn <= virtual < next {
        return Some((run.start + (virtual - vcn)) % WORD_LIMIT);
      }
      vcn := next;
      i := i + 1;
    }
    r := None;
  }

  /** No sum over the list wraps. */
  predicate InWord(runs: seq<ClusterRun>) {
    Sum(runs) < WORD_LIMIT && forall i :: 0 <= i < |runs| ==> runs[i].Limit() <= WORD_LIMIT
  }

  /** A canonical list has no more clusters than lie below its end. */
  lemma {:induction false} SumBelowEnd(runs: seq<ClusterRun>)
    requires Canonical(runs) && runs != []
    ensures Sum(runs) <= runs[|runs| - 1].Limit() < WORD_LIMIT
    decreases |runs|
  {
    var init, last := runs[..|runs| - 1], runs[|runs| - 1];
    assert last.Valid();
    if init != [] {
      SumBelowEnd(init);
      assert init[|init| - 1].Limit() < last.start;
    }
  }

  lemma CanonicalInWord(runs: seq<ClusterRun>)
    requires Canonical(runs)
    ensures InWord(runs)
  {
    hide Sum;
    if runs != [] {
      SumBelowEnd(runs);
    } else {
      assert Sum([]) == 0 by { SumNone(); }
    }
    assert forall i :: 0 <= i < |runs| ==> runs[i].Valid();
  }

  lemma SumNone()
    ensures Sum([]) == 0
  {
  }

  lemma ScannedStep(runs: seq<ClusterRun>, vcn: u64, virtual: u64)
    requires runs != [] && vcn + runs[0].count < WORD_LIMIT && runs[0].Limit() <= WORD_LIMIT
    ensures Scanned(runs, vcn, virtual)
            == if vcn <= virtual < vcn + runs[0].count then Some(runs[0].start + (virtual - vcn))
               else Scanned(runs[1..], vcn + runs[0].count, virtual)
  {
  }

  lemma SumTake(runs: seq<ClusterRun>, i: nat)
    requires i < |runs|
    ensures Sum(runs[..i + 1]) == Sum(runs[..i]) + runs[i].count <= Sum(runs)
  {
    assert runs[..i + 1][..i] == runs[..i];
    SumMono(runs, i + 1);
  }

  lemma {:induction false} ScannedFrom(runs: seq<ClusterRun>, i: nat, virtual: u64)
    requires InWord(runs) && i <= |runs| && Sum(runs[..i]) <= virtual
    ensures Scanned(runs[i..], Sum(runs[..i]), virtual) == ClusterAt(runs, virtual)
    decreases |runs| - i
  {
    hide ClusterAt, Sum, Scanned;
    if i == |runs| {
      assert runs[..i] == runs && runs[i..] == [];
      BeyondTotal(runs, virtual);
      ScannedNone(Sum(runs[..i]), virtual);
    } else {
      SumTake(runs, i);
      ScannedStep(runs[i..], Sum(runs[..i]), virtual);
      assert runs[i..][1..] == runs[i + 1..];
      if virtual < Sum(runs[..i + 1]) {
        ClusterAtPrefix(runs, i + 1, virtual);
        assert runs[..i + 1][..i] == runs[..i];
        ClusterAtEnd(runs[..i + 1], virtual);
      } else {
        ScannedFrom(runs, i + 1, virtual);
      }
    }
  }

  lemma ScannedNone(vcn: u64, virtual: u64)
    ensures Scanned([], vcn, virtual) == None
  {
  }

  lemma ClusterAtEnd(runs: seq<ClusterRun>, virtual: nat)
    requires runs != [] && Sum(runs[..|runs| - 1]) <= virtual < Sum(runs)
    ensures ClusterAt(runs, virtual) == Some(runs[|runs| - 1].start + (virtual - Sum(runs[..|runs| - 1])))
  {
  }

  /** Where no sum wraps, the scan computes the mapping. */
  lemma ScannedExact(runs: seq<ClusterRun>, virtual: u64)
    requires InWord(runs)
    ensures Scanned(runs, 0, virtual) == ClusterAt(runs, virtual)
  {
    hide Scanned, ClusterAt;
    assert runs[..0] == [] && runs[0..] == runs;
    SumNone();
    ScannedFrom(runs, 0, virtual);
  }

  /** The mapping from virtual to real clusters: the runs laid end to end. */
  function ClusterAt(runs: seq<ClusterRun>, virtual: nat): (r: Option<nat>) {
    if runs == [] then None
    else
      var init, last := runs[..|runs| - 1], runs[|runs| - 1];
      var before := Sum(init);
      if virtual < before then ClusterAt(init, virtual)
      else if virtual < before + last.count then Some(last.start + (virtual - before))
      else None
  }

  lemma BeyondTotal(runs: seq<ClusterRun>, virtual: nat)
    requires virtual >= Sum(runs)
    ensures ClusterAt(runs, virtual) == None
  {
  }

  lemma {:induction false} SumMono(runs: seq<ClusterRun>, i: nat)
    requires i <= |runs|
    ensures Sum(runs[..i]) <= Sum(runs)
    decreases |runs|
  {
    if i < |runs| {
      SumMono(runs[..|runs| - 1], i);
      assert runs[..|runs| - 1][..i] == runs[..i];
    } else {
      assert runs[..i] == runs;
    }
  }

  /** Numbers within a prefix of the list are mapped by that prefix. */
  lemma {:induction false} ClusterAtPrefix(runs: seq<ClusterRun>, i: nat, virtual: nat)
    requires i <= |runs| && virtual < Sum(runs[..i])
    ensures ClusterAt(runs, virtual) == ClusterAt(runs[..i], virtual)
    decreases |runs|
  {
    if i < |runs| {
      var init := runs[..|runs| - 1];
      assert init[..i] == runs[..i];
      ClusterAtPrefix(init, i, virtual);
      SumMono(init, i);
    } else {
      assert runs[..i] == runs;
    }
  }

  /** Every number below the total is mapped to a cluster of the list, below the end of the last run. */
  lemma {:induction false} ClusterAtMember(runs: seq<ClusterRun>, virtual: nat)
    requires virtual < Sum(runs) && Canonical(runs)
    ensures ClusterAt(runs, virtual).Some? && In(runs, ClusterAt(runs, virtual).value)
    ensures runs != [] && ClusterAt(runs, virtual).value < runs[|runs| - 1].Limit()
    decreases |runs|
  {
    hide In;
    var init, last := runs[..|runs| - 1], runs[|runs| - 1];
    assert runs == init + [last];
    if virtual < Sum(init) {
      ClusterAtMember(init, virtual);
      InCons(init, last, ClusterAt(init, virtual).value);
      assert init[|init| - 1].Limit() < last.start;
    } else {
      InCons(init, last, last.start + (virtual - Sum(init)));
    }
  }

  /** Theorem: the mapping is strictly increasing. */
  lemma {:induction false} ClusterAtIncreasing(runs: seq<ClusterRun>, v: nat, w: nat)
    requires v < w < Sum(runs) && Canonical(runs)
    ensures ClusterAt(runs, v).Some? && ClusterAt(runs, w).Some?
    ensures ClusterAt(runs, v).value < ClusterAt(runs, w).value
    decreases |runs|
  {
    var init, last := runs[..|runs| - 1], runs[|runs| - 1];
    if w < Sum(init) {
      ClusterAtIncreasing(init, v, w);
    } else if v < Sum(init) {
      ClusterAtMember(init, v);
      assert init[|init| - 1].Limit() < last.start;
    }
  }

  /** Theorem: every cluster of the list has a virtual number below the total. */
  lemma {:induction false} ClusterAtOnto(runs: seq<ClusterRun>, c: nat) returns (v: nat)
    requires In(runs, c) && Canonical(runs)
    ensures v < Sum(runs) && ClusterAt(runs, v) == Some(c)
    decreases |runs|
  {
    var init, last := runs[..|runs| - 1], runs[|runs| - 1];
    assert runs == init + [last];
    InCons(init, last, c);
    if last.Has(c) {
      v := Sum(init) + (c - last.start);
    } else {
      v := ClusterAtOnto(init, c);
    }
  }

  /**
   Theorem: a run added at or above the end of the list leaves every existing
   virtual number where it was, and numbers the new clusters after them.
   */
  lemma AppendKeepsNumbers(list: RunList, r: ClusterRun, v: nat)
    requires list.Valid() && r.Valid()
    requires list.runs == [] || list.runs[|list.runs| - 1].Limit() <= r.start
    ensures v < list.totalClusters ==> ClusterAt(Added(list, r).runs, v) == ClusterAt(list.runs, v)
    ensures v < r.count ==> ClusterAt(Added(list, r).runs, list.totalClusters + v) == Some(r.start + v)
  {
    hide Canonical, In, Sum, Separated, MergeAll, InsertByStart, MergeNext, ClusterAt;
    var runs := list.runs;
    AppendedRuns(runs, r);
    if runs != [] && runs[|runs| - 1].Limit() == r.start {
      SnocForm(runs);
      MergeJoins(runs[..|runs| - 1], runs[|runs| - 1], r, 0);
      GrownNumbers(runs[..|runs| - 1], runs[|runs| - 1], r.count, v);
    } else {
      MergeAppends(runs, r, 0);
      AppendedNumbers(runs, r, v);
    }
  }

  /** A run at or above the end is merged into the list as the next one. */
  lemma AppendedRuns(runs: seq<ClusterRun>, r: ClusterRun)
    requires Canonical(runs) && r.Valid()
    requires runs == [] || runs[|runs| - 1].Limit() <= r.start
    ensures MergeAll(SortByStart(runs + [r])) == MergeNext(runs, r)
  {
    hide Canonical, MergeNext;
    CanonicalSeparated(runs);
    SortAppended(runs, r);
    assert InsertByStart(runs, r) == runs + [r];
    assert (runs + [r])[..|runs|] == runs;
    MergeCanonical(runs);
  }

  lemma AppendedNumbers(runs: seq<ClusterRun>, r: ClusterRun, v: nat)
    ensures v < Sum(runs) ==> ClusterAt(runs + [r], v) == ClusterAt(runs, v)
    ensures v < r.count ==> ClusterAt(runs + [r], Sum(runs) + v) == Some(r.start + v)
  {
    assert (runs + [r])[..|runs|] == runs;
  }

  lemma GrownNumbers(init: seq<ClusterRun>, last: ClusterRun, more: nat, v: nat)
    requires last.count + more < WORD_LIMIT
    ensures var grown := init + [ClusterRun(last.start, last.count + more)];
            && (v < Sum(init + [last]) ==> ClusterAt(grown, v) == ClusterAt(init + [last], v))
            && (v < more ==> ClusterAt(grown, Sum(init + [last]) + v) == Some(last.Limit() + v))
  {
    var grown := init + [ClusterRun(last.start, last.count + more)];
    assert grown[..|init|] == init;
    assert (init + [last])[..|init|] == init;
  }

  lemma InBelow(runs: seq<ClusterRun>, c: nat)
    requires Canonical(runs) && In(runs, c)
    ensures runs != [] && c < runs[|runs| - 1].Limit()
  {
    var i :| 0 <= i < |runs| && runs[i].Has(c);
    if i < |runs| - 1 {
      assert runs[i].Limit() < runs[|runs| - 1].start;
    }
  }

  lemma LastNumber(runs: seq<ClusterRun>)
    requires Canonical(runs) && runs != []
    ensures Sum(runs) > 0 && ClusterAt(runs, Sum(runs) - 1) == Some(runs[|runs| - 1].Limit() - 1)
  {
    assert runs[|runs| - 1].Valid();
  }

  /**
   Theorem: adding a disjoint run leaves all existing virtual numbers alone
   exactly when the run lies above the end of the list.
   */
  lemma NumbersKeptExactly(list: RunList, r: ClusterRun)
    requires list.Valid() && r.Valid() && Apart(list.runs, r) && list.runs != []
    ensures (forall v :: 0 <= v < list.totalClusters ==> ClusterAt(Added(list, r).runs, v) == ClusterAt(list.runs, v))
            <==> list.runs[|list.runs| - 1].Limit() <= r.start
  {
    hide Canonical, In, Sum, Added, ClusterAt;
    var runs, top := list.runs, list.runs[|list.runs| - 1].Limit();
    if top <= r.start {
      forall v | 0 <= v < list.totalClusters
        ensures ClusterAt(Added(list, r).runs, v) == ClusterAt(runs, v)
      {
        AppendKeepsNumbers(list, r, v);
      }
    } else {
      LastNumber(runs);
      LowRunRenumbers(list, r);
    }
  }

  /** A run below the end pushes the last cluster to a higher number. */
  lemma LowRunRenumbers(list: RunList, r: ClusterRun)
    requires list.Valid() && r.Valid() && Apart(list.runs, r) && list.runs != []
    requires r.start < list.runs[|list.runs| - 1].Limit() && list.totalClusters > 0
    ensures ClusterAt(Added(list, r).runs, list.totalClusters - 1) != Some(list.runs[|list.runs| - 1].Limit() - 1)
  {
    hide Canonical, In, Sum, Added, ClusterAt;
    var top, added := list.runs[|list.runs| - 1].Limit(), Added(list, r);
    AddRunCorrect(list, r, 0);
    var n := list.totalClusters;
    assert added.totalClusters == n + r.count by { AddedTotal(list, r); }
    ClusterAtIncreasing(added.runs, n - 1, n + r.count - 1);
    ClusterAtMember(added.runs, n + r.count - 1);
    var c := ClusterAt(added.runs, n + r.count - 1).value;
    AddRunCorrect(list, r, c);
    if !r.Has(c) {
      InBelow(list.runs, c);
    } else {
      assert r.Limit() <= list.runs[|list.runs| - 1].start;
    }
  }

  lemma AddedTotal(list: RunList, r: ClusterRun)
    ensures Added(list, r).totalClusters == (list.totalClusters + r.count) % WORD_LIMIT
  {
    hide MergeAll, SortByStart;
  }
}
