/** What a run that reaches past 2^64 does to the list it extends (crates/galleon2/src/allocation.rs). */
module WrappedRuns {
  import opened Numbers
  import opened Wrappers
  import opened RunLists
  import opened EmptyRuns

  lemma WrappedEnd(last: ClusterRun, n: u64)
    requires last.Valid() && last.Limit() + n >= WORD_LIMIT
    ensures var e := ClusterRun(last.Limit(), n).EndCluster();
            if last.Limit() + n == WORD_LIMIT then e == WORD_LIMIT - 1
            else e == last.Limit() + n - 1 - WORD_LIMIT && e < last.Limit() - 1
  {
  }

  /** The last run merged with one that starts at its end and wraps. */
  lemma MergedLast(last: ClusterRun, n: u64)
    requires last.Valid() && last.Limit() + n >= WORD_LIMIT
    ensures var r := ClusterRun(last.Limit(), n);
            && last.CanMerge(r)
            && (last.Limit() + n == WORD_LIMIT ==>
                  last.Merged(r) == ClusterRun(last.start, (WORD_LIMIT - last.start) % WORD_LIMIT))
            && (last.Limit() + n > WORD_LIMIT ==> last.Merged(r) == last)
  {
    EndExact(last);
    WrappedEnd(last, n);
    hide ClusterRun.EndCluster;
  }

  /** Only the last run changes. */
  lemma AddedRuns(list: RunList, n: u64)
    requires list.Valid() && list.runs != [] && EndOf(list) + n >= WORD_LIMIT
    ensures EndOf(list) < WORD_LIMIT
    ensures var k := |list.runs| - 1;
            var r := ClusterRun(EndOf(list), n);
            Added(list, r).runs == list.runs[..k] + [list.runs[k].Merged(r)]
  {
    hide Sum, MergeAll, InsertByStart, SortByStart, ClusterRun.CanMerge, ClusterRun.Merged;
    var k := |list.runs| - 1;
    var last := list.runs[k];
    assert last.Valid();
    var r := ClusterRun(EndOf(list), n);
    CanonicalSeparated(list.runs);
    SortAppended(list.runs, r);
    InsertStep(list.runs, r);
    MergeSnoc(list.runs, r);
    MergeCanonical(list.runs);
    MergedLast(last, n);
  }

  /** Theorem: a run that starts at the end of a list and wraps always leaves the list invalid. */
  lemma WrappingInvalid(list: RunList, n: u64)
    requires list.Valid() && list.runs != [] && EndOf(list) + n >= WORD_LIMIT
    ensures EndOf(list) < WORD_LIMIT && !Added(list, ClusterRun(EndOf(list), n)).Valid()
  {
    hide MergeAll, SortByStart, ClusterRun.CanMerge, ClusterRun.Merged;
    var k := |list.runs| - 1;
    var last := list.runs[k];
    assert last.Valid();
    AddedRuns(list, n);
    MergedLast(last, n);
    var added := Added(list, ClusterRun(EndOf(list), n));
    if EndOf(list) + n == WORD_LIMIT {
      assert !added.runs[k].Valid();
    } else {
      assert list.runs[..k] + [last] == list.runs;
      assert added.runs == list.runs;
    }
  }

  /**
   Theorem: such a run keeps every virtual number of the list exactly unless
   the list is one run from cluster zero and the sum is 2^64.
   */
  lemma WrappingNumbers(list: RunList, n: u64)
    requires list.Valid() && list.runs != [] && EndOf(list) + n >= WORD_LIMIT
    ensures EndOf(list) < WORD_LIMIT
    ensures var after := Added(list, ClusterRun(EndOf(list), n)).runs;
            (forall v: u64 :: v < list.totalClusters ==> Scanned(after, 0, v) == Scanned(list.runs, 0, v))
            <==> !(list.runs[|list.runs| - 1].start == 0 && EndOf(list) + n == WORD_LIMIT)
  {
    hide Added, Scanned, ClusterRun.CanMerge, ClusterRun.Merged, Canonical, Sum, InWord, ClusterAt;
    var k := |list.runs| - 1;
    var last := list.runs[k];
    LastValid(list.runs);
    AddedRuns(list, n);
    MergedLast(last, n);
    CanonicalInWord(list.runs);
    SnocForm(list.runs);
    var after := Added(list, ClusterRun(EndOf(list), n)).runs;
    if EndOf(list) + n == WORD_LIMIT {
      if last.start == 0 {
        OnlyRun(list);
        NothingFound(0);
        FirstNumber(list.runs);
        assert Scanned(after, 0, 0) != Scanned(list.runs, 0, 0);
      } else {
        GrownInWord(list.runs);
        forall v: u64 | v < list.totalClusters
          ensures Scanned(after, 0, v) == Scanned(list.runs, 0, v)
        {
          ScannedExact(after, v);
          ScannedExact(list.runs, v);
          GrownNumbers(list.runs[..k], last, WORD_LIMIT - last.start - last.count, v);
        }
      }
    }
  }

  lemma LastValid(runs: seq<ClusterRun>)
    requires Canonical(runs) && runs != []
    ensures runs[|runs| - 1].Valid()
  {
  }

  /** A last run that starts at cluster zero is the only one. */
  lemma OnlyRun(list: RunList)
    requires Canonical(list.runs) && list.runs != [] && list.runs[|list.runs| - 1].start == 0
    ensures |list.runs| == 1
  {
    var first, last := list.runs[0], list.runs[|list.runs| - 1];
  }

  lemma NothingFound(v: u64)
    ensures Scanned([] + [ClusterRun(0, 0)], 0, v) == None
  {
    assert ([] + [ClusterRun(0, 0)])[1..] == [];
  }

  lemma FirstNumber(runs: seq<ClusterRun>)
    requires Canonical(runs) && |runs| == 1
    ensures Sum(runs) > 0 && Scanned(runs, 0, 0).Some?
  {
    assert runs[0].Valid() && runs[..0] == [];
  }

  /** A last run grown to the end of the number range still sums below it. */
  lemma GrownInWord(runs: seq<ClusterRun>)
    requires Canonical(runs) && runs != [] && runs[|runs| - 1].start > 0
    ensures var last := runs[|runs| - 1];
            InWord(runs[..|runs| - 1] + [ClusterRun(last.start, WORD_LIMIT - last.start)])
  {
    hide Sum;
    var init, last := runs[..|runs| - 1], runs[|runs| - 1];
    SnocForm(runs);
    NextApart(init, last);
    if init != [] {
      SumBelowEnd(init);
      assert init[|init| - 1].Limit() < last.start;
    } else {
      SumNone();
    }
    SumSnoc(init, ClusterRun(last.start, WORD_LIMIT - last.start));
    assert forall i :: 0 <= i < |init| ==> init[i].Valid();
  }
}
