/** Who owns which cluster: the allocator's state as values, its steps and their invariant. */
module ClusterOwnership {
  import opened RunLists
  import opened ClusterBitmaps
  import opened EmptyRuns
  import opened Sequences
  import opened Wrappers
  import opened Numbers

  /** The bitmap and the run list of every file. */
  datatype State = State(bits: seq<bool>, files: map<nat, RunList>)

  ghost predicate Owned(files: map<nat, RunList>, c: nat) {
    exists f :: f in files && In(files[f].runs, c)
  }

  /** Every file's list is canonical and not empty. */
  ghost predicate ListsValid(files: map<nat, RunList>) {
    forall f :: f in files ==> files[f].Valid() && files[f].runs != []
  }

  /** No cluster belongs to two files. */
  ghost predicate Exclusive(files: map<nat, RunList>) {
    forall f, g, c: nat :: f in files && g in files && In(files[f].runs, c) && In(files[g].runs, c) ==> f == g
  }

  /**
   The used bits are the disjoint union of the reserved clusters and the
   clusters of each file.
   */
  ghost predicate Consistent(s: State, reserved: set<nat>) {
    && ListsValid(s.files)
    && Exclusive(s.files)
    && (forall c :: c in reserved ==> c < |s.bits|)
    && (forall c: nat :: Owned(s.files, c) ==> c < |s.bits| && c !in reserved)
    && (forall c :: 0 <= c < |s.bits| ==> (s.bits[c] <==> c in reserved || Owned(s.files, c)))
  }

  function ListOf(files: map<nat, RunList>, f: nat): (l: RunList) {
    if f in files then files[f] else EMPTY_LIST
  }

  // ---------------------------------------------------------------------
  // The effect of each operation

  /** Marking a run stops with an error when its range goes past the end of the disk. */
  predicate PastEnd(size: nat, run: ClusterRun) {
    run.Stop() > run.start && run.Stop() > size
  }

  /** A run is marked used and, unless that fails, added to a file's list. */
  function Take(s: State, f: nat, run: ClusterRun): (r: State) {
    State(Marked(s.bits, run.start, run.Stop(), true),
          if PastEnd(|s.bits|, run) then s.files else s.files[f := Added(ListOf(s.files, f), run)])
  }

  /** remove_run: only an exactly equal run is removed. */
  function Removed(list: RunList, run: ClusterRun): (r: RunList) {
    var k := IndexOf(list.runs, run);
    if k.None? then list
    else RunList(RemoveAt(list.runs, k.value),
                 (list.totalClusters + WORD_LIMIT - run.count) % WORD_LIMIT)
  }

  function IndexOf(runs: seq<ClusterRun>, run: ClusterRun): (r: Option<nat>)
    ensures r.Some? ==> r.value < |runs| && runs[r.value] == run
    ensures r.None? <==> run !in runs
  {
    if runs == [] then None
    else if runs[0] == run then Some(0)
    else match IndexOf(runs[1..], run)
      case None => None
      case Some(k) => Some(k + 1)
  }

  function DropIfEmpty(files: map<nat, RunList>, f: nat): (r: map<nat, RunList>) {
    if f in files && files[f].runs == [] then files - {f} else files
  }

  /** deallocate_clusters: the bits are cleared first; an error past the end stops before the list is touched. */
  function Give(s: State, f: nat, run: ClusterRun): (r: State) {
    var bits := Marked(s.bits, run.start, run.Stop(), false);
    if PastEnd(|s.bits|, run) then State(bits, s.files)
    else if f !in s.files then State(bits, s.files)
    else State(bits, DropIfEmpty(s.files[f := Removed(s.files[f], run)], f))
  }

  /** The bits with every cluster of a list cleared. */
  function ClearedAll(bits: seq<bool>, runs: seq<ClusterRun>): (r: seq<bool>)
    ensures |r| == |bits|
  {
    if runs == [] then bits
    else Marked(ClearedAll(bits, runs[..|runs| - 1]), runs[|runs| - 1].start, runs[|runs| - 1].Stop(), false)
  }

  /** The runs of a list that are freed: all of them, or up to the first one past the end. */
  function Reached(size: nat, runs: seq<ClusterRun>): (r: seq<ClusterRun>) {
    if runs == [] then []
    else if PastEnd(size, runs[0]) then [runs[0]]
    else [runs[0]] + Reached(size, runs[1..])
  }

  predicate AnyPastEnd(size: nat, runs: seq<ClusterRun>) {
    exists i :: 0 <= i < |runs| && PastEnd(size, runs[i])
  }

  /** deallocate_all_clusters: the file is forgotten first. */
  function GiveAll(s: State, f: nat): (r: State) {
    if f in s.files then State(ClearedAll(s.bits, Reached(|s.bits|, s.files[f].runs)), s.files - {f}) else s
  }

  /** defragment_file: a new run of the whole size is taken, then the old ones are freed, then the list is replaced. */
  function Move(s: State, f: nat, run: ClusterRun): (r: State)
    requires f in s.files
  {
    var taken := Marked(s.bits, run.start, run.Stop(), true);
    if PastEnd(|s.bits|, run) then State(taken, s.files)
    else
      State(ClearedAll(taken, Reached(|s.bits|, s.files[f].runs)),
            if AnyPastEnd(|s.bits|, s.files[f].runs) then s.files else s.files[f := Added(EMPTY_LIST, run)])
  }

  // ---------------------------------------------------------------------
  // Steps

  datatype Op =
    | Allocate(file: nat, count: u64)
    | Extend(file: nat, count: u64)
    | Deallocate(file: nat, run: ClusterRun)
    | DeallocateAll(file: nat)
    | Defragment(file: nat)

  ghost predicate Fits(strategy: AllocationStrategy, bits: seq<bool>, count: nat, r: Option<ClusterRun>) {
    if strategy.BestFit? then IsBestFit(bits, count, r) else IsFirstFit(bits, count, r)
  }

  /** Every cluster of the source's range over a run is free; a range that wraps is empty. */
  predicate RangeFree(bits: seq<bool>, run: ClusterRun) {
    forall c :: run.start <= c < run.Stop() ==> FreeAt(bits, c)
  }

  predicate FreeAt(bits: seq<bool>, c: nat) {
    c < |bits| && !bits[c]
  }

  lemma WindowOnDisk(bits: seq<bool>, run: ClusterRun)
    requires WindowFree(bits, run.start, run.count)
    ensures !PastEnd(|bits|, run)
  {
  }

  lemma RangeOnDisk(bits: seq<bool>, run: ClusterRun)
    requires RangeFree(bits, run)
    ensures !PastEnd(|bits|, run)
    ensures run.Valid() ==> WindowFree(bits, run.start, run.count)
  {
    if run.Stop() > run.start {
      assert FreeAt(bits, run.Stop() - 1);
    }
    if run.Valid() {
      forall c | run.start <= c < run.Limit()
        ensures !bits[c]
      {
        assert FreeAt(bits, c);
      }
    }
  }

  /** The run just past a file's last cluster, when all of its range is free. */
  function Extension(s: State, f: nat, count: u64): (r: Option<ClusterRun>) {
    if f in s.files && s.files[f].runs != [] then
      var last := s.files[f].runs[|s.files[f].runs| - 1];
      var run := ClusterRun((last.EndCluster() + 1) % WORD_LIMIT, count);
      if RangeFree(s.bits, run) then Some(run) else None
    else None
  }

  ghost predicate AllocateStep(strategy: AllocationStrategy, s: State, f: nat, count: u64, r: Option<ClusterRun>, s': State) {
    Fits(strategy, s.bits, count, r) && s' == if r.Some? then Take(s, f, r.value) else s
  }

  /** What each operation may do; `r` is the run handed out or moved to, if any. */
  ghost predicate Step(strategy: AllocationStrategy, s: State, op: Op, r: Option<ClusterRun>, s': State) {
    match op
    case Allocate(f, n) => AllocateStep(strategy, s, f, n, r, s')
    case Extend(f, n) =>
      if Extension(s, f, n).Some? then r == Extension(s, f, n) && s' == Take(s, f, r.value)
      else AllocateStep(strategy, s, f, n, r, s')
    case Deallocate(f, run) => r == None && s' == Give(s, f, run)
    case DeallocateAll(f) => r == None && s' == GiveAll(s, f)
    case Defragment(f) =>
      if f in s.files then
        IsFirstFit(s.bits, s.files[f].totalClusters, r) && s' == if r.Some? then Move(s, f, r.value) else s
      else r == None && s' == s
  }

  /** A request for no clusters lands where one of the file's runs ends, or finds no free cluster. */
  ghost predicate Absorbs(strategy: AllocationStrategy, s: State, f: nat) {
    forall run :: Fits(strategy, s.bits, 0, Some(run)) ==> EndsAt(ListOf(s.files, f).runs, run.start)
  }

  /**
   What keeps ownership: requests for at least one cluster, requests for none
   that a run absorbs, extensions of a file whose end stays within 64 bits, and
   returning a run that the file holds, that has no cluster in use, or whose
   range wraps.
   */
  ghost predicate Legal(strategy: AllocationStrategy, s: State, op: Op) {
    match op
    case Allocate(f, n) => n > 0 || Absorbs(strategy, s, f)
    case Extend(f, n) => if f in s.files then EndOf(s.files[f]) + n < WORD_LIMIT else n > 0 || Absorbs(strategy, s, f)
    case Deallocate(f, run) => MayReturn(s, f, run)
    case DeallocateAll(_) => true
    case Defragment(_) => true
  }

  predicate MayReturn(s: State, f: nat, run: ClusterRun) {
    || (f in s.files && run in s.files[f].runs)
    || run.Limit() >= WORD_LIMIT
    || (forall c :: 0 <= c < |s.bits| && run.Has(c) ==> !s.bits[c])
  }

  // ---------------------------------------------------------------------
  // Each step keeps ownership

  /** A free window shares nothing with a file's runs. */
  lemma FreeIsApart(s: State, reserved: set<nat>, f: nat, run: ClusterRun)
    requires Consistent(s, reserved) && WindowFree(s.bits, run.start, run.count) && run.count > 0
    ensures Apart(ListOf(s.files, f).runs, run)
    ensures forall c: nat :: run.Has(c) ==> c < |s.bits| && c !in reserved && !Owned(s.files, c)
  {
    hide RunList.Valid;
    if f in s.files {
      var runs := s.files[f].runs;
      forall i | 0 <= i < |runs|
        ensures runs[i].Limit() <= run.start || run.Limit() <= runs[i].start
      {
        if runs[i].Limit() > run.start && run.Limit() > runs[i].start {
          var c := if runs[i].start >= run.start then runs[i].start else run.start;
          ValidRun(s, reserved, f, i);
          UsedByFile(s, reserved, f, i, c);
        }
      }
    }
  }

  lemma UsedByFile(s: State, reserved: set<nat>, f: nat, i: nat, c: nat)
    requires Consistent(s, reserved) && f in s.files && i < |s.files[f].runs| && s.files[f].runs[i].Has(c)
    ensures c < |s.bits| && s.bits[c]
  {
    hide RunList.Valid;
    assert In(s.files[f].runs, c);
    assert Owned(s.files, c);
  }

  lemma ValidRun(s: State, reserved: set<nat>, f: nat, i: nat)
    requires Consistent(s, reserved) && f in s.files && i < |s.files[f].runs|
    ensures s.files[f].runs[i].Valid() && s.files[f].Valid()
  {
  }

  lemma ValidList(s: State, reserved: set<nat>, f: nat)
    requires Consistent(s, reserved) && f in s.files
    ensures AllValid(s.files[f].runs)
  {
    assert s.files[f].Valid();
  }

  lemma TakeMembers(s: State, reserved: set<nat>, f: nat, run: ClusterRun, c: nat)
    requires Consistent(s, reserved) && WindowFree(s.bits, run.start, run.count) && run.Valid()
    ensures Added(ListOf(s.files, f), run).Valid() && Added(ListOf(s.files, f), run).runs != []
    ensures In(Added(ListOf(s.files, f), run).runs, c) <==> In(ListOf(s.files, f).runs, c) || run.Has(c)
    ensures Owned(Take(s, f, run).files, c) <==> Owned(s.files, c) || run.Has(c)
  {
    hide Added, In, RunList.Valid;
    var list := ListOf(s.files, f);
    FreeIsApart(s, reserved, f, run);
    EmptyListValid();
    assert list.Valid();
    AddRunCorrect(list, run, c);
    AddRunCorrect(list, run, run.start);
    NotInEmpty(Added(list, run).runs, run.start);
    NotInEmpty(EMPTY_LIST.runs, c);
    var files' := Take(s, f, run).files;
    if Owned(s.files, c) {
      var g :| g in s.files && In(s.files[g].runs, c);
      assert In(files'[g].runs, c);
    }
    if run.Has(c) {
      assert In(files'[f].runs, c);
    }
  }

  lemma EmptyListValid()
    ensures EMPTY_LIST.Valid()
  {
  }

  lemma NotInEmpty(runs: seq<ClusterRun>, c: nat)
    ensures In(runs, c) ==> runs != []
  {
  }

  /** Handing out a free run keeps ownership. */
  lemma TakeConsistent(s: State, reserved: set<nat>, f: nat, run: ClusterRun)
    requires Consistent(s, reserved) && WindowFree(s.bits, run.start, run.count) && run.Valid()
    ensures Consistent(Take(s, f, run), reserved)
  {
    hide Added, In, RunList.Valid, Owned, WindowFree, PastEnd;
    var s' := Take(s, f, run);
    WindowOnDisk(s.bits, run);
    FreeIsApart(s, reserved, f, run);
    forall c: nat
      ensures Owned(s'.files, c) <==> Owned(s.files, c) || run.Has(c)
      ensures In(s'.files[f].runs, c) <==> In(ListOf(s.files, f).runs, c) || run.Has(c)
    {
      TakeMembers(s, reserved, f, run, c);
    }
    TakeMembers(s, reserved, f, run, 0);
    forall g, h, c: nat | g in s'.files && h in s'.files && In(s'.files[g].runs, c) && In(s'.files[h].runs, c)
      ensures g == h
    {
      TakeExclusive(s, reserved, f, run, g, h, c);
    }
  }

  lemma TakeExclusive(s: State, reserved: set<nat>, f: nat, run: ClusterRun, g: nat, h: nat, c: nat)
    requires Consistent(s, reserved) && WindowFree(s.bits, run.start, run.count) && run.Valid()
    requires g in Take(s, f, run).files && In(Take(s, f, run).files[g].runs, c)
    requires h in Take(s, f, run).files && In(Take(s, f, run).files[h].runs, c)
    ensures g == h
  {
    hide Added, In, RunList.Valid, WindowFree, PastEnd;
    WindowOnDisk(s.bits, run);
    TakeMembers(s, reserved, f, run, c);
    FreeIsApart(s, reserved, f, run);
    NotInEmpty(EMPTY_LIST.runs, c);
    if run.Has(c) {
      assert !Owned(s.files, c);
    }
  }

  // ---------------------------------------------------------------------
  // Giving back

  lemma {:induction false} ClearedMembers(bits: seq<bool>, runs: seq<ClusterRun>, c: nat)
    requires c < |bits| && AllValid(runs)
    ensures ClearedAll(bits, runs)[c] <==> bits[c] && !In(runs, c)
    decreases |runs|
  {
    hide In;
    if runs == [] {
      NotInEmpty(runs, c);
    } else {
      var init, last := runs[..|runs| - 1], runs[|runs| - 1];
      SnocForm(runs);
      InCons(init, last, c);
      ClearedMembers(bits, init, c);
    }
  }

  lemma WithoutFile(files: map<nat, RunList>, f: nat, c: nat)
    requires Exclusive(files) && f in files
    ensures Owned(files - {f}, c) <==> Owned(files, c) && !In(files[f].runs, c)
  {
    hide In;
    if Owned(files, c) && !In(files[f].runs, c) {
      var g :| g in files && In(files[g].runs, c);
      assert g in files - {f};
    }
    if Owned(files - {f}, c) {
      var g :| g in files - {f} && In((files - {f})[g].runs, c);
      assert g in files && In(files[g].runs, c);
    }
  }

  lemma {:induction false} AllReached(size: nat, runs: seq<ClusterRun>)
    requires !AnyPastEnd(size, runs)
    ensures Reached(size, runs) == runs
    decreases |runs|
  {
    hide PastEnd;
    if runs != [] {
      assert !PastEnd(size, runs[0]);
      var rest := runs[1..];
      assert forall i :: 0 <= i < |rest| ==> rest[i] == runs[i + 1];
      AllReached(size, rest);
      assert [runs[0]] + rest == runs;
    }
  }

  /** Where ownership holds, every run of a file lies on the disk. */
  lemma FileOnDisk(s: State, reserved: set<nat>, f: nat)
    requires Consistent(s, reserved) && f in s.files
    ensures !AnyPastEnd(|s.bits|, s.files[f].runs) && Reached(|s.bits|, s.files[f].runs) == s.files[f].runs
  {
    hide RunList.Valid, In, Owned;
    var runs := s.files[f].runs;
    forall i | 0 <= i < |runs|
      ensures !PastEnd(|s.bits|, runs[i])
    {
      ValidRun(s, reserved, f, i);
      UsedByFile(s, reserved, f, i, runs[i].Limit() - 1);
    }
    AllReached(|s.bits|, runs);
  }

  /** Freeing everything a file holds keeps ownership. */
  lemma GiveAllConsistent(s: State, reserved: set<nat>, f: nat)
    requires Consistent(s, reserved)
    ensures Consistent(GiveAll(s, f), reserved)
  {
    hide In, RunList.Valid, Owned, ClearedAll, Reached;
    if f in s.files {
      FileOnDisk(s, reserved, f);
      var s' := GiveAll(s, f);
      forall c: nat
        ensures Owned(s'.files, c) <==> Owned(s.files, c) && !In(s.files[f].runs, c)
        ensures In(s.files[f].runs, c) ==> Owned(s.files, c)
      {
        WithoutFile(s.files, f, c);
        OwnedBy(s.files, f, c);
      }
      forall c: nat | c < |s.bits|
        ensures s'.bits[c] <==> s.bits[c] && !In(s.files[f].runs, c)
      {
        ValidList(s, reserved, f);
        ClearedMembers(s.bits, s.files[f].runs, c);
      }
    }
  }

  lemma OwnedBy(files: map<nat, RunList>, f: nat, c: nat)
    requires f in files
    ensures In(files[f].runs, c) ==> Owned(files, c)
  {
  }

  lemma RemovedCanonical(runs: seq<ClusterRun>, k: nat)
    requires Canonical(runs) && k < |runs|
    ensures Canonical(RemoveAt(runs, k))
  {
    RemovedElements(runs, k);
  }

  lemma OnlyOneHas(runs: seq<ClusterRun>, i: nat, k: nat, c: nat)
    requires Canonical(runs) && i < |runs| && k < |runs| && runs[i].Has(c) && runs[k].Has(c)
    ensures i == k
  {
  }

  lemma RemovedIn(runs: seq<ClusterRun>, k: nat, c: nat)
    requires Canonical(runs) && k < |runs|
    ensures In(RemoveAt(runs, k), c) <==> In(runs, c) && !runs[k].Has(c)
  {
    hide Canonical, ClusterRun.Has;
    var r := RemoveAt(runs, k);
    RemovedElements(runs, k);
    if In(runs, c) && !runs[k].Has(c) {
      var i :| 0 <= i < |runs| && runs[i].Has(c);
      assert r[if i < k then i else i - 1].Has(c);
    }
    if In(r, c) {
      var i :| 0 <= i < |r| && r[i].Has(c);
      var j := if i < k then i else i + 1;
      assert runs[j].Has(c);
      if runs[k].Has(c) {
        OnlyOneHas(runs, j, k, c);
      }
    }
  }

  /** Removing the run at `k` from a canonical list removes exactly its clusters. */
  lemma RemovedAt(list: RunList, k: nat, c: nat)
    requires list.Valid() && k < |list.runs|
    ensures var runs := RemoveAt(list.runs, k);
            && Canonical(runs) && Sum(runs) + list.runs[k].count == list.totalClusters
            && (In(runs, c) <==> In(list.runs, c) && !list.runs[k].Has(c))
  {
    hide Canonical, Sum, In;
    RemovedCanonical(list.runs, k);
    SumRemoved(list.runs, k);
    RemovedIn(list.runs, k, c);
  }

  lemma {:induction false} SumRemoved(runs: seq<ClusterRun>, k: nat)
    requires k < |runs|
    ensures Sum(RemoveAt(runs, k)) + runs[k].count == Sum(runs)
    decreases |runs|
  {
    var init, last := runs[..|runs| - 1], runs[|runs| - 1];
    if k == |runs| - 1 {
      assert RemoveAt(runs, k) == init;
    } else {
      SumRemoved(init, k);
      assert init[..k] == runs[..k];
      assert RemoveAt(runs, k) == RemoveAt(init, k) + [last];
      SumSnoc(RemoveAt(init, k), last);
    }
  }

  /** remove_run on a run of the list. */
  lemma RemovedCorrect(list: RunList, run: ClusterRun, c: nat)
    requires list.Valid() && run in list.runs
    ensures Removed(list, run).Valid()
    ensures In(Removed(list, run).runs, c) <==> In(list.runs, c) && !run.Has(c)
    ensures In(list.runs, run.start) && run.Valid()
    ensures run.Has(c) ==> In(list.runs, c)
  {
    hide Canonical, Sum;
    var k := IndexOf(list.runs, run).value;
    RemovedAt(list, k, c);
    CanonicalValid(list.runs, k);
    assert list.runs[k].Has(run.start);
  }

  lemma CanonicalValid(runs: seq<ClusterRun>, k: nat)
    requires Canonical(runs) && k < |runs|
    ensures runs[k].Valid()
  {
  }

  /** Replacing one file's list changes ownership by the difference. */
  lemma ReplacedFile(files: map<nat, RunList>, f: nat, list: RunList, c: nat)
    requires Exclusive(files) && f in files
    ensures Owned(files[f := list], c) <==> (Owned(files, c) && !In(files[f].runs, c)) || In(list.runs, c)
  {
    hide In;
    var files' := files[f := list];
    if Owned(files, c) && !In(files[f].runs, c) {
      var g :| g in files && In(files[g].runs, c);
      assert In(files'[g].runs, c);
    }
    if In(list.runs, c) {
      assert In(files'[f].runs, c);
    }
    if Owned(files', c) {
      var g :| g in files' && In(files'[g].runs, c);
      if g != f {
        assert In(files[g].runs, c);
      }
    }
  }

  lemma DroppedFile(files: map<nat, RunList>, f: nat, c: nat)
    ensures Owned(DropIfEmpty(files, f), c) <==> Owned(files, c)
  {
    var files' := DropIfEmpty(files, f);
    if Owned(files, c) {
      var g :| g in files && In(files[g].runs, c);
      assert g in files' && files'[g] == files[g];
    }
  }

  /** Returning a run that the file holds keeps ownership. */
  lemma GiveConsistent(s: State, reserved: set<nat>, f: nat, run: ClusterRun)
    requires Consistent(s, reserved) && f in s.files && run in s.files[f].runs
    ensures Consistent(Give(s, f, run), reserved)
  {
    hide In, RunList.Valid, Owned, Removed;
    var list := s.files[f];
    var list' := Removed(list, run);
    var mid := s.files[f := list'];
    forall c: nat
      ensures In(list'.runs, c) <==> In(list.runs, c) && !run.Has(c)
      ensures run.Has(c) ==> In(list.runs, c)
      ensures Owned(DropIfEmpty(mid, f), c) <==> Owned(s.files, c) && !run.Has(c)
      ensures run.Has(c) ==> Owned(s.files, c)
    {
      RemovedCorrect(list, run, c);
      ReplacedFile(s.files, f, list', c);
      DroppedFile(mid, f, c);
      OwnedBy(s.files, f, c);
    }
    RemovedCorrect(list, run, 0);
    assert run.Has(run.Limit() - 1);
    assert run.Limit() - 1 < |s.bits|;
  }

  /**
   Theorem: deallocate_clusters keeps ownership exactly when the file holds that
   very run, or the run covers no used cluster at all, or its range wraps.
   */
  lemma GiveExactly(s: State, reserved: set<nat>, f: nat, run: ClusterRun)
    requires Consistent(s, reserved)
    ensures Consistent(Give(s, f, run), reserved) <==> MayReturn(s, f, run)
  {
    hide In, RunList.Valid, Owned;
    if f in s.files && run in s.files[f].runs {
      GiveConsistent(s, reserved, f, run);
    } else {
      GiveUntracked(s, reserved, f, run);
      var s' := Give(s, f, run);
      if run.Limit() >= WORD_LIMIT {
        assert s'.bits == s.bits;
      } else if forall c :: 0 <= c < |s.bits| && run.Has(c) ==> !s.bits[c] {
        assert s'.bits == s.bits;
      } else {
        var c :| 0 <= c < |s.bits| && run.Has(c) && s.bits[c];
        assert !s'.bits[c];
      }
    }
  }

  /** A run the file does not hold changes bits but no list. */
  lemma GiveUntracked(s: State, reserved: set<nat>, f: nat, run: ClusterRun)
    requires Consistent(s, reserved)
    requires !(f in s.files && run in s.files[f].runs)
    ensures Give(s, f, run) == State(Marked(s.bits, run.start, run.Stop(), false), s.files)
  {
    hide In, RunList.Valid, Owned;
    if f in s.files {
      assert Removed(s.files[f], run) == s.files[f];
      assert s.files[f := s.files[f]] == s.files;
    }
  }

  // ---------------------------------------------------------------------
  // Requests for no clusters

  lemma FreeNotIn(s: State, reserved: set<nat>, f: nat, c: nat)
    requires Consistent(s, reserved) && c < |s.bits| && !s.bits[c]
    ensures !In(ListOf(s.files, f).runs, c)
  {
    hide RunList.Valid, In;
    if f in s.files {
      OwnedBy(s.files, f, c);
    } else {
      NotInEmpty([], c);
    }
  }

  lemma UnchangedTake(s: State, f: nat, c: u64)
    requires f in s.files && Added(s.files[f], ClusterRun(c, 0)) == s.files[f]
    ensures Take(s, f, ClusterRun(c, 0)) == s
  {
    hide Added;
    assert Marked(s.bits, c, c, true) == s.bits;
    assert s.files[f := s.files[f]] == s.files;
  }

  lemma InvalidTake(s: State, reserved: set<nat>, f: nat, run: ClusterRun)
    requires !PastEnd(|s.bits|, run) && !Added(ListOf(s.files, f), run).Valid()
    ensures !Consistent(Take(s, f, run), reserved)
  {
    hide Added, RunList.Valid;
    assert Take(s, f, run).files[f] == Added(ListOf(s.files, f), run);
  }

  /** An empty run changes nothing where a run of the file ends, and breaks ownership at any other free cluster. */
  lemma TakeEmptyExactly(s: State, reserved: set<nat>, f: nat, c: u64)
    requires Consistent(s, reserved)
    ensures EndsAt(ListOf(s.files, f).runs, c) ==> Take(s, f, ClusterRun(c, 0)) == s
    ensures c < |s.bits| && !s.bits[c] && !EndsAt(ListOf(s.files, f).runs, c) ==>
              !Consistent(Take(s, f, ClusterRun(c, 0)), reserved)
  {
    hide Added, RunList.Valid, Take, In;
    var list := ListOf(s.files, f);
    EmptyListValid();
    assert list.Valid();
    AddEmptyExactly(list, c);
    if EndsAt(list.runs, c) {
      UnchangedTake(s, f, c);
    } else if c < |s.bits| && !s.bits[c] {
      FreeNotIn(s, reserved, f, c);
      InvalidTake(s, reserved, f, ClusterRun(c, 0));
    }
  }

  // ---------------------------------------------------------------------
  // Moving a file

  /** Taking a run of the whole size and freeing the old ones keeps ownership. */
  lemma MoveConsistent(s: State, reserved: set<nat>, f: nat, run: ClusterRun)
    requires Consistent(s, reserved) && f in s.files
    requires WindowFree(s.bits, run.start, run.count) && run.Valid()
    ensures Consistent(Move(s, f, run), reserved)
  {
    hide In, RunList.Valid, Owned, ClearedAll, Added, Reached, AnyPastEnd;
    FileOnDisk(s, reserved, f);
    var s', list, list' := Move(s, f, run), s.files[f], Added(EMPTY_LIST, run);
    FreeIsApart(s, reserved, f, run);
    forall c: nat
      ensures In(list'.runs, c) <==> run.Has(c)
      ensures Owned(s'.files, c) <==> (Owned(s.files, c) && !In(list.runs, c)) || run.Has(c)
      ensures In(list.runs, c) ==> Owned(s.files, c)
    {
      SingleRun(run, c);
      ReplacedFile(s.files, f, list', c);
      OwnedBy(s.files, f, c);
    }
    SingleRun(run, run.start);
    NotInEmpty(list'.runs, run.start);
    var taken := Marked(s.bits, run.start, run.Limit(), true);
    forall c: nat | c < |s.bits|
      ensures s'.bits[c] <==> taken[c] && !In(list.runs, c)
    {
      ValidList(s, reserved, f);
      ClearedMembers(taken, list.runs, c);
    }
    forall g, h, c: nat | g in s'.files && h in s'.files && In(s'.files[g].runs, c) && In(s'.files[h].runs, c)
      ensures g == h
    {
      MoveExclusive(s, reserved, f, run, g, h, c);
    }
  }

  lemma SingleRun(run: ClusterRun, c: nat)
    requires run.Valid()
    ensures Added(EMPTY_LIST, run).Valid()
    ensures In(Added(EMPTY_LIST, run).runs, c) <==> run.Has(c)
  {
    hide Added, In, RunList.Valid;
    EmptyListValid();
    AddRunCorrect(EMPTY_LIST, run, c);
    NotInEmpty(EMPTY_LIST.runs, c);
  }

  lemma MoveExclusive(s: State, reserved: set<nat>, f: nat, run: ClusterRun, g: nat, h: nat, c: nat)
    requires Consistent(s, reserved) && f in s.files
    requires WindowFree(s.bits, run.start, run.count) && run.Valid()
    requires g in Move(s, f, run).files && In(Move(s, f, run).files[g].runs, c)
    requires h in Move(s, f, run).files && In(Move(s, f, run).files[h].runs, c)
    ensures g == h
  {
    hide In, RunList.Valid, Owned, ClearedAll, Added, WindowFree;
    SingleRun(run, c);
    FreeIsApart(s, reserved, f, run);
    OwnedBy(s.files, if g in s.files then g else f, c);
    OwnedBy(s.files, if h in s.files then h else f, c);
  }
}
