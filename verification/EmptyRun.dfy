/** What a run of no clusters does to a run list (crates/galleon2/src/allocation.rs). */
module EmptyRuns {
  import opened RunLists
  import opened Numbers

  /** Some run of the list ends just before cluster `c`. */
  predicate EndsAt(runs: seq<ClusterRun>, c: nat) {
    exists i :: 0 <= i < |runs| && runs[i].Limit() == c
  }

  /** An empty run at cluster zero wraps around and swallows the run it is merged with. */
  lemma EmptyRunSwallows(count: u64)
    requires 0 < count
    ensures ClusterRun(0, 0).CanMerge(ClusterRun(0, count))
    ensures ClusterRun(0, 0).Merged(ClusterRun(0, count)) == ClusterRun(0, 0)
  {
    EndExact(ClusterRun(0, count));
  }

  lemma TouchesLast(last: ClusterRun, c: u64)
    requires last.Valid() && last.start < c
    ensures last.CanMerge(ClusterRun(c, 0)) <==> last.Limit() == c
    ensures last.Limit() == c ==> last.Merged(ClusterRun(c, 0)) == last
  {
    EndExact(last);
    assert ClusterRun(c, 0).EndCluster() == c - 1;
  }

  lemma TouchesNext(next: ClusterRun, c: u64)
    requires next.Valid() && c < next.start
    ensures !ClusterRun(c, 0).CanMerge(next)
  {
    EndExact(next);
    assert (ClusterRun(c, 0).EndCluster() + 1) % WORD_LIMIT == c;
  }

  lemma MergeSnoc(runs: seq<ClusterRun>, r: ClusterRun)
    ensures MergeAll(runs + [r]) == MergeNext(MergeAll(runs), r)
  {
    assert (runs + [r])[..|runs|] == runs;
  }

  lemma NextApart(init: seq<ClusterRun>, last: ClusterRun)
    requires Canonical(init + [last])
    ensures Canonical(init) && last.Valid() && MergeNext(init, last) == init + [last]
  {
    hide Sum, In;
    var all := init + [last];
    assert forall i :: 0 <= i < |init| ==> all[i] == init[i];
    assert all[|init|] == last;
    if init != [] {
      assert all[|init| - 1].Limit() < all[|init|].start;
      MergeExact(init[|init| - 1], last);
    }
  }

  lemma InsertStep(runs: seq<ClusterRun>, r: ClusterRun)
    requires runs != []
    ensures var n := |runs| - 1;
            InsertByStart(runs, r) == if runs[n].start <= r.start then runs + [r] else InsertByStart(runs[..n], r) + [runs[n]]
  {
  }

  lemma JoinLast(runs: seq<ClusterRun>, r: ClusterRun)
    requires runs != [] && runs[|runs| - 1].CanMerge(r) && runs[|runs| - 1].Merged(r) == runs[|runs| - 1]
    ensures MergeNext(runs, r) == runs
  {
    hide ClusterRun.CanMerge, ClusterRun.Merged;
    SnocForm(runs);
  }

  /** Among the runs of a canonical list, one that ends at or after the last start is the last. */
  lemma EndsLast(runs: seq<ClusterRun>, c: u64)
    requires Canonical(runs) && EndsAt(runs, c)
    ensures var last := runs[|runs| - 1];
            runs != [] && last.Valid() && (last.start <= c ==> last.start < c == last.Limit())
    ensures runs[|runs| - 1].start > c ==> EndsAt(runs[..|runs| - 1], c)
  {
    hide Sum, In;
    var i :| 0 <= i < |runs| && runs[i].Limit() == c;
    assert runs[|runs| - 1].Valid();
    if i < |runs| - 1 {
      assert runs[..|runs| - 1][i] == runs[i];
    }
  }

  /** An empty run where one of the runs ends is absorbed by that run. */
  lemma {:induction false} Absorbed(runs: seq<ClusterRun>, c: u64)
    requires Canonical(runs) && EndsAt(runs, c)
    ensures MergeAll(InsertByStart(runs, ClusterRun(c, 0))) == runs
    decreases |runs|
  {
    hide MergeAll, Sum, In, ClusterRun.CanMerge, ClusterRun.Merged, InsertByStart, MergeNext, Canonical, EndsAt;
    EndsLast(runs, c);
    var r, n := ClusterRun(c, 0), |runs| - 1;
    InsertStep(runs, r);
    SnocForm(runs);
    NextApart(runs[..n], runs[n]);
    if runs[n].start <= c {
      MergeSnoc(runs, r);
      MergeCanonical(runs);
      TouchesLast(runs[n], c);
      JoinLast(runs, r);
    } else {
      Absorbed(runs[..n], c);
      MergeSnoc(InsertByStart(runs[..n], r), runs[n]);
    }
  }

  /** Anywhere else outside the list it stays, as a run of its own. */
  lemma {:induction false} Stays(runs: seq<ClusterRun>, c: u64)
    requires Canonical(runs) && !EndsAt(runs, c) && !In(runs, c)
    ensures var r := ClusterRun(c, 0);
            MergeAll(InsertByStart(runs, r)) == InsertByStart(runs, r) && r in InsertByStart(runs, r)
    decreases |runs|
  {
    var r := ClusterRun(c, 0);
    if runs == [] {
      MergeSnoc([], r);
      assert [] + [r] == [r];
    } else {
      var n := |runs| - 1;
      var init, last := runs[..n], runs[n];
      SnocForm(runs);
      NextApart(init, last);
      assert !last.Has(c) && last.Limit() != c;
      if last.start <= c {
        MergeSnoc(runs, r);
        MergeCanonical(runs);
        TouchesLast(last, c);
      } else {
        assert !EndsAt(init, c) && !In(init, c);
        Stays(init, c);
        MergeSnoc(InsertByStart(init, r), last);
        LastOfInsert(init, r);
        if InsertByStart(init, r)[|init|] == r {
          TouchesNext(last, c);
        }
      }
    }
  }

  lemma LastOfInsert(runs: seq<ClusterRun>, r: ClusterRun)
    ensures |InsertByStart(runs, r)| == |runs| + 1
    ensures InsertByStart(runs, r)[|runs|] == r || (runs != [] && InsertByStart(runs, r)[|runs|] == runs[|runs| - 1])
  {
  }

  /**
   Theorem: adding an empty run at a cluster outside the list keeps the list
   valid exactly when one of its runs ends there, and then changes nothing.
   */
  lemma AddEmptyExactly(list: RunList, c: u64)
    requires list.Valid()
    ensures EndsAt(list.runs, c) ==> Added(list, ClusterRun(c, 0)) == list
    ensures !EndsAt(list.runs, c) && !In(list.runs, c) ==> !Added(list, ClusterRun(c, 0)).Valid()
  {
    hide Sum, InsertByStart, MergeAll, SortByStart;
    CanonicalSeparated(list.runs);
    SortAppended(list.runs, ClusterRun(c, 0));
    if EndsAt(list.runs, c) {
      Absorbed(list.runs, c);
    } else if !In(list.runs, c) {
      Stays(list.runs, c);
      NotCanonical(Added(list, ClusterRun(c, 0)).runs, ClusterRun(c, 0));
    }
  }

  lemma NotCanonical(runs: seq<ClusterRun>, r: ClusterRun)
    requires r in runs && r.count == 0
    ensures !Canonical(runs)
  {
    var i :| 0 <= i < |runs| && runs[i] == r;
    assert !runs[i].Valid();
  }
}
