/** Transactions with savepoints (crates/galleonfs/src/transaction.rs). */
module Savepoints {
  import opened Sequences
  import opened Wrappers

  datatype Savepoint = Savepoint(id: nat, operationCount: nat)

  /** A transaction as a value: whether it is active, its operations and its live savepoints. */
  datatype Txn<Op> = Txn(active: bool, operations: seq<Op>, savepoints: seq<Savepoint>)

  datatype Action<Op> =
    | AddOperation(op: Op)
    | CreateSavepoint(id: nat)
    | RollbackTo(target: nat)
    | Release(target: nat)
    | Prepare

  /** The first savepoint with an id, as `position` finds it. */
  function Find(sps: seq<Savepoint>, id: nat): (r: Option<nat>)
    ensures r.Some? ==> r.value < |sps| && sps[r.value].id == id && forall i :: 0 <= i < r.value ==> sps[i].id != id
    ensures r.None? ==> forall i :: 0 <= i < |sps| ==> sps[i].id != id
  {
    if sps == [] then None
    else if sps[0].id == id then Some(0)
    else match Find(sps[1..], id)
      case None => None
      case Some(k) => Some(k + 1)
  }

  /** Vec::truncate. */
  function Truncate<T>(s: seq<T>, n: nat): (r: seq<T>) {
    if n <= |s| then s[..n] else s
  }

  /** The effect of one call; an unknown savepoint is an error that changes nothing. */
  function Step<Op>(t: Txn<Op>, a: Action<Op>): (r: Txn<Op>) {
    match a
    case AddOperation(op) => if t.active then t.(operations := t.operations + [op]) else t
    case CreateSavepoint(id) => t.(savepoints := t.savepoints + [Savepoint(id, |t.operations|)])
    case RollbackTo(id) =>
      (match Find(t.savepoints, id)
       case None => t
       case Some(k) =>
         t.(operations := Truncate(t.operations, t.savepoints[k].operationCount), savepoints := t.savepoints[..k + 1]))
    case Release(id) =>
      (match Find(t.savepoints, id)
       case None => t
       case Some(k) => t.(savepoints := RemoveAt(t.savepoints, k)))
    case Prepare => t.(active := false)
  }

  /** ExtendedTransaction. Savepoint ids come from a counter shared by all transactions. */
  class ExtendedTransaction<Op> {
    var active: bool
    var operations: seq<Op>
    var savepoints: seq<Savepoint>

    ghost function Value(): (t: Txn<Op>)
      reads this
    {
      Txn(active, operations, savepoints)
    }

    constructor ()
      ensures Value() == Txn(true, [], [])
    {
      active := true;
      operations := [];
      savepoints := [];
    }

    method Add(op: Op)
      modifies this
      ensures Value() == Step(old(Value()), AddOperation(op))
    {
      if active {
        operations := operations + [op];
      }
    }

    method Create(nextId: nat) returns (sp: Savepoint)
      modifies this
      ensures sp == Savepoint(nextId, |old(operations)|)
      ensures Value() == Step(old(Value()), CreateSavepoint(nextId))
    {
      sp := Savepoint(nextId, |operations|);
      savepoints := savepoints + [sp];
    }

    method Position(id: nat) returns (r: Option<nat>)
      ensures r == Find(savepoints, id)
    {
      var i := 0;
      while i < |savepoints|
        invariant 0 <= i <= |savepoints|
        invariant forall k :: 0 <= k < i ==> savepoints[k].id != id
      {
        if savepoints[i].id == id {
          return Some(i);
        }
        i := i + 1;
      }
      r := None;
    }

    /** rollback_to_savepoint; `ok` is false for an unknown savepoint. */
    method RollbackToSavepoint(id: nat) returns (ok: bool)
      modifies this
      ensures ok <==> Find(old(savepoints), id).Some?
      ensures Value() == Step(old(Value()), RollbackTo(id))
    {
      var index := Position(id);
      if index.None? {
        return false;
      }
      var savepoint := savepoints[index.value];
      operations := Truncate(operations, savepoint.operationCount);
      savepoints := savepoints[..index.value + 1];
      ok := true;
    }

    /** release_savepoint. */
    method ReleaseSavepoint(id: nat) returns (ok: bool)
      modifies this
      ensures ok <==> Find(old(savepoints), id).Some?
      ensures Value() == Step(old(Value()), Release(id))
    {
      var index := Position(id);
      if index.None? {
        return false;
      }
      savepoints := savepoints[..index.value] + savepoints[index.value + 1..];
      ok := true;
    }
  }

  // ---------------------------------------------------------------------
  // Runs

  function After<Op>(run: seq<Action<Op>>): (t: Txn<Op>) {
    if run == [] then Txn(true, [], [])
    else Step(After(run[..|run| - 1]), run[|run| - 1])
  }

  /** The shared counter never hands out an id twice. */
  predicate FreshIds<Op(==)>(run: seq<Action<Op>>) {
    forall i, j :: 0 <= i < j < |run| && run[i].CreateSavepoint? && run[j].CreateSavepoint? ==> run[i].id != run[j].id
  }

  /** Counts never decrease along the list and never exceed the log. */
  predicate Ordered<Op>(t: Txn<Op>) {
    && (forall i, j :: 0 <= i < j < |t.savepoints| ==>
          t.savepoints[i].operationCount <= t.savepoints[j].operationCount)
    && (forall i :: 0 <= i < |t.savepoints| ==> t.savepoints[i].operationCount <= |t.operations|)
  }

  lemma StepOrdered<Op>(t: Txn<Op>, a: Action<Op>)
    requires Ordered(t)
    ensures Ordered(Step(t, a))
  {
    hide Find, RemoveAt;
    if a.Release? && Find(t.savepoints, a.target).Some? {
      RemovedElements(t.savepoints, Find(t.savepoints, a.target).value);
    }
  }

  /** Theorem: savepoint counts stay ordered and within the log in every reachable state. */
  lemma {:induction false} RunOrdered<Op>(run: seq<Action<Op>>)
    ensures Ordered(After(run))
    decreases |run|
  {
    if run != [] {
      RunOrdered(run[..|run| - 1]);
      StepOrdered(After(run[..|run| - 1]), run[|run| - 1]);
    }
  }

  predicate Absent(sps: seq<Savepoint>, id: nat) {
    forall i :: 0 <= i < |sps| ==> sps[i].id != id
  }

  lemma StepAbsent<Op>(t: Txn<Op>, a: Action<Op>, id: nat)
    requires Absent(t.savepoints, id) && a != CreateSavepoint(id)
    ensures Absent(Step(t, a).savepoints, id)
  {
    hide Find, RemoveAt;
    if a.Release? && Find(t.savepoints, a.target).Some? {
      RemovedElements(t.savepoints, Find(t.savepoints, a.target).value);
    }
  }

  /** A live savepoint was created earlier in the run. */
  lemma {:induction false} LiveWasCreated<Op>(run: seq<Action<Op>>, id: nat)
    requires forall i :: 0 <= i < |run| ==> run[i] != CreateSavepoint(id)
    ensures Absent(After(run).savepoints, id)
    decreases |run|
  {
    hide Step;
    if run != [] {
      LiveWasCreated(run[..|run| - 1], id);
      StepAbsent(After(run[..|run| - 1]), run[|run| - 1], id);
    }
  }

  /** The savepoint found in `t` under `id` records exactly `ops`. */
  ghost predicate Records<Op>(t: Txn<Op>, id: nat, ops: seq<Op>) {
    forall k :: 0 <= k < |t.savepoints| && t.savepoints[k].id == id ==>
      t.savepoints[k].operationCount == |ops| && |ops| <= |t.operations| && t.operations[..|ops|] == ops
  }

  lemma StepRecords<Op>(t: Txn<Op>, a: Action<Op>, id: nat, ops: seq<Op>)
    requires Ordered(t) && Records(t, id, ops) && a != CreateSavepoint(id)
    ensures Records(Step(t, a), id, ops)
  {
    hide Find, RemoveAt;
    var t' := Step(t, a);
    forall k | 0 <= k < |t'.savepoints| && t'.savepoints[k].id == id
      ensures t'.savepoints[k].operationCount == |ops| && |ops| <= |t'.operations| && t'.operations[..|ops|] == ops
    {
      match a
      case AddOperation(op) =>
        assert t.savepoints[k].id == id;
      case CreateSavepoint(_) =>
        assert t.savepoints[k].id == id;
      case RollbackTo(target) =>
        assert t.savepoints[k].id == id;
      case Release(target) =>
        if Find(t.savepoints, target).Some? {
          RemovedElements(t.savepoints, Find(t.savepoints, target).value);
        }
      case Prepare =>
        assert t.savepoints[k].id == id;
    }
  }

  lemma {:induction false} LiveRecords<Op>(run: seq<Action<Op>>, i: nat, j: nat)
    requires FreshIds(run) && i < j <= |run| && run[i].CreateSavepoint?
    ensures Records(After(run[..j]), run[i].id, After(run[..i]).operations)
    decreases j
  {
    var id := run[i].id;
    assert run[..j][..j - 1] == run[..j - 1];
    RunOrdered(run[..j - 1]);
    if j == i + 1 {
      LiveWasCreated(run[..i], id);
    } else {
      LiveRecords(run, i, j - 1);
      assert run[j - 1] != CreateSavepoint(id);
      StepRecords(After(run[..j - 1]), run[j - 1], id, After(run[..i]).operations);
    }
  }

  /**
   Theorem: in every run, rolling back to a live savepoint restores exactly the
   operations that existed when it was created, keeps it, and forgets later ones.
   */
  lemma RollbackRestores<Op>(run: seq<Action<Op>>, i: nat, j: nat)
    requires FreshIds(run) && i < j < |run| && run[i].CreateSavepoint? && run[j] == RollbackTo(run[i].id)
    requires Find(After(run[..j]).savepoints, run[i].id).Some?
    ensures After(run[..j + 1]).operations == After(run[..i]).operations
    ensures var sps := After(run[..j + 1]).savepoints;
            sps != [] && sps <= After(run[..j]).savepoints && sps[|sps| - 1].id == run[i].id
  {
    assert run[..j + 1][..j] == run[..j];
    LiveRecords(run, i, j);
  }

  // ---------------------------------------------------------------------
  // Savepoints and operations, from the history of calls alone

  /**
   The savepoint created by call `i` has neither been released before call `j`
   nor been forgotten by rolling back to one created earlier that was still there.
   */
  ghost predicate Survives<Op>(run: seq<Action<Op>>, i: nat, j: nat)
    requires i < j <= |run| && run[i].CreateSavepoint?
    decreases j, 0
  {
    forall m :: i < m < j ==> run[m] != Release(run[i].id) && !ForgottenAt(run, i, m)
  }

  ghost predicate ForgottenAt<Op>(run: seq<Action<Op>>, i: nat, m: nat)
    requires i < m < |run| && run[i].CreateSavepoint?
    decreases m, 1
  {
    run[m].RollbackTo? && exists h :: 0 <= h < i && run[h] == CreateSavepoint(run[m].target) && Survives(run, h, m)
  }

  /** Wherever both ids occur, `a` comes first; an id before itself occurs once. */
  predicate Precedes(sps: seq<Savepoint>, a: nat, b: nat) {
    forall p, q :: 0 <= p < |sps| && 0 <= q < |sps| && sps[p].id == a && sps[q].id == b ==> p < q || (p == q && a == b)
  }

  lemma StepPrecedes<Op>(t: Txn<Op>, action: Action<Op>, a: nat, b: nat)
    requires Precedes(t.savepoints, a, b) && action != CreateSavepoint(a)
    requires action == CreateSavepoint(b) ==> a != b
    ensures Precedes(Step(t, action).savepoints, a, b)
  {
    hide Find, RemoveAt;
    if action.Release? && Find(t.savepoints, action.target).Some? {
      RemovedElements(t.savepoints, Find(t.savepoints, action.target).value);
    }
  }

  /** Savepoints are listed in the order of their creation, each once. */
  lemma {:induction false} InOrder<Op>(run: seq<Action<Op>>, h: nat, i: nat, j: nat)
    requires FreshIds(run) && h <= i < j <= |run| && run[h].CreateSavepoint? && run[i].CreateSavepoint?
    ensures Precedes(After(run[..j]).savepoints, run[h].id, run[i].id)
    decreases j
  {
    hide Step;
    assert run[..j][..j - 1] == run[..j - 1];
    if j == i + 1 {
      LiveWasCreated(run[..i], run[i].id);
      Appended(After(run[..i]), run[h].id, run[i].id);
    } else {
      InOrder(run, h, i, j - 1);
      StepPrecedes(After(run[..j - 1]), run[j - 1], run[h].id, run[i].id);
    }
  }

  lemma Appended<Op>(t: Txn<Op>, a: nat, b: nat)
    requires Absent(t.savepoints, b)
    ensures Precedes(Step(t, CreateSavepoint(b)).savepoints, a, b)
  {
  }

  /** Whether a savepoint is listed after the first `j` calls. */
  ghost predicate Listed<Op>(run: seq<Action<Op>>, i: nat, j: nat)
    requires i < j <= |run| && run[i].CreateSavepoint?
  {
    !Absent(After(run[..j]).savepoints, run[i].id)
  }

  /** Rolling back forgets exactly the savepoints after the one found. */
  lemma RollbackForgets<Op>(t: Txn<Op>, target: nat, id: nat)
    requires Precedes(t.savepoints, id, id) && !Absent(t.savepoints, id) && target != id
    ensures Absent(Step(t, RollbackTo(target)).savepoints, id) <==>
              !Absent(t.savepoints, target) && !Precedes(t.savepoints, id, target)
  {
    var sps := t.savepoints;
    var q :| 0 <= q < |sps| && sps[q].id == id;
    match Find(sps, target)
    case None =>
    case Some(k) =>
      var after := Step(t, RollbackTo(target)).savepoints;
      if q < k {
        assert after[q].id == id;
      }
  }

  /** Releasing removes that savepoint only. */
  lemma ReleaseRemoves<Op>(t: Txn<Op>, target: nat, id: nat)
    requires Precedes(t.savepoints, id, id) && !Absent(t.savepoints, id)
    ensures Absent(Step(t, Release(target)).savepoints, id) <==> target == id
  {
    hide RemoveAt;
    var sps := t.savepoints;
    var q :| 0 <= q < |sps| && sps[q].id == id;
    match Find(sps, target)
    case None =>
    case Some(k) =>
      RemovedElements(sps, k);
      var after := RemoveAt(sps, k);
      if q != k {
        assert after[if q < k then q else q - 1].id == id;
      }
  }

  lemma OthersList<Op>(t: Txn<Op>, action: Action<Op>, id: nat)
    requires !Absent(t.savepoints, id) && !action.RollbackTo? && !action.Release?
    ensures !Absent(Step(t, action).savepoints, id)
  {
    var sps := t.savepoints;
    var q :| 0 <= q < |sps| && sps[q].id == id;
    assert Step(t, action).savepoints[q].id == id;
  }

  /** Two savepoints in the list cannot each precede the other. */
  lemma OneFirst(sps: seq<Savepoint>, a: nat, b: nat)
    requires !Absent(sps, a) && !Absent(sps, b) && a != b && Precedes(sps, a, b)
    ensures !Precedes(sps, b, a)
  {
    var p :| 0 <= p < |sps| && sps[p].id == a;
    var q :| 0 <= q < |sps| && sps[q].id == b;
  }

  /** A savepoint rolled back to was created by some call before. */
  lemma WhoCreated<Op>(run: seq<Action<Op>>, m: nat, id: nat) returns (h: nat)
    requires m <= |run| && !Absent(After(run[..m]).savepoints, id)
    ensures h < m && run[h] == CreateSavepoint(id)
  {
    if forall i :: 0 <= i < m ==> run[..m][i] != CreateSavepoint(id) {
      LiveWasCreated(run[..m], id);
    }
    h :| 0 <= h < m && run[..m][h] == CreateSavepoint(id);
  }

  /** One call, for a savepoint that is listed. */
  lemma ListedStep<Op>(run: seq<Action<Op>>, i: nat, m: nat)
    requires FreshIds(run) && i < m < |run| && run[i].CreateSavepoint? && Listed(run, i, m)
    requires forall h :: 0 <= h < i && run[h].CreateSavepoint? ==> (Listed(run, h, m) <==> Survives(run, h, m))
    ensures Listed(run, i, m + 1) <==> run[m] != Release(run[i].id) && !ForgottenAt(run, i, m)
  {
    hide Step, Survives, Precedes, Absent;
    var t, id := After(run[..m]), run[i].id;
    assert run[..m + 1][..m] == run[..m];
    InOrder(run, i, i, m);
    match run[m]
    case Release(target) =>
      ReleaseRemoves(t, target, id);
    case RollbackTo(target) =>
      if target != id {
        RollbackForgets(t, target, id);
        if !Absent(t.savepoints, target) {
          var h := WhoCreated(run, m, target);
          if h < i {
            InOrder(run, h, i, m);
            OneFirst(t.savepoints, target, id);
          } else {
            InOrder(run, i, h, m);
          }
        }
      } else {
        KeepsTarget(t, id);
      }
    case AddOperation(_) =>
      OthersList(t, run[m], id);
    case CreateSavepoint(_) =>
      OthersList(t, run[m], id);
    case Prepare =>
      OthersList(t, run[m], id);
  }

  lemma KeepsTarget<Op>(t: Txn<Op>, id: nat)
    requires !Absent(t.savepoints, id)
    ensures !Absent(Step(t, RollbackTo(id)).savepoints, id)
  {
    var k := Find(t.savepoints, id).value;
    assert Step(t, RollbackTo(id)).savepoints[k].id == id;
  }

  /**
   Theorem: in every run, a savepoint is still there exactly when it has not been
   released and no rollback went to one created before it that was still there.
   */
  lemma {:induction false} ListedExactly<Op>(run: seq<Action<Op>>, i: nat, j: nat)
    requires FreshIds(run) && i < j <= |run| && run[i].CreateSavepoint?
    ensures Listed(run, i, j) <==> Survives(run, i, j)
    decreases j, i
  {
    hide Step, Absent, ForgottenAt, Listed;
    if j == i + 1 {
      JustCreated(run, i);
    } else {
      var m := j - 1;
      ListedExactly(run, i, m);
      forall h | 0 <= h < i && run[h].CreateSavepoint?
        ensures Listed(run, h, m) <==> Survives(run, h, m)
      {
        ListedExactly(run, h, m);
      }
      if Listed(run, i, m) {
        ListedStep(run, i, m);
      } else {
        StaysGone(run, i, m);
      }
    }
  }

  lemma JustCreated<Op>(run: seq<Action<Op>>, i: nat)
    requires i < |run| && run[i].CreateSavepoint?
    ensures Listed(run, i, i + 1)
  {
    assert run[..i + 1][..i] == run[..i];
    var sps := After(run[..i + 1]).savepoints;
    assert sps[|sps| - 1].id == run[i].id;
  }

  lemma StaysGone<Op>(run: seq<Action<Op>>, i: nat, m: nat)
    requires FreshIds(run) && i < m < |run| && run[i].CreateSavepoint? && !Listed(run, i, m)
    ensures !Listed(run, i, m + 1)
  {
    hide Step;
    assert run[..m + 1][..m] == run[..m];
    StepAbsent(After(run[..m]), run[m], run[i].id);
  }

  /** No call has ended the transaction's active state before call `j`. */
  predicate StillActive<Op>(run: seq<Action<Op>>, j: nat)
    requires j <= |run|
  {
    forall m :: 0 <= m < j ==> !run[m].Prepare?
  }

  lemma {:induction false} ActiveExactly<Op>(run: seq<Action<Op>>, j: nat)
    requires j <= |run|
    ensures After(run[..j]).active <==> StillActive(run, j)
    decreases j
  {
    if j > 0 {
      assert run[..j][..j - 1] == run[..j - 1];
      ActiveExactly(run, j - 1);
    }
  }

  /**
   Theorem: in every run, a call adds its operation while the transaction is
   active, a rollback to a savepoint that is still there brings back the
   operations of when it was created, and no other call changes them.
   */
  lemma OperationsExactly<Op>(run: seq<Action<Op>>, j: nat)
    requires FreshIds(run) && j < |run|
    ensures var before, after := After(run[..j]).operations, After(run[..j + 1]).operations;
            match run[j]
            case AddOperation(op) => after == before + if StillActive(run, j) then [op] else []
            case RollbackTo(id) =>
              && (forall h :: 0 <= h < j && run[h] == CreateSavepoint(id) ==>
                    after == if Survives(run, h, j) then After(run[..h]).operations else before)
              && ((forall h :: 0 <= h < j ==> run[h] != CreateSavepoint(id)) ==> after == before)
            case _ => after == before
  {
    hide Survives, StillActive;
    assert run[..j + 1][..j] == run[..j];
    ActiveExactly(run, j);
    var before := After(run[..j]).operations;
    assert before + [] == before;
    if run[j].RollbackTo? {
      var id := run[j].target;
      forall h | 0 <= h < j && run[h] == CreateSavepoint(id)
        ensures After(run[..j + 1]).operations == if Survives(run, h, j) then After(run[..h]).operations else before
      {
        ListedExactly(run, h, j);
        if Survives(run, h, j) {
          RollbackRestores(run, h, j);
        }
      }
      if forall h :: 0 <= h < j ==> run[h] != CreateSavepoint(id) {
        LiveWasCreated(run[..j], id);
      }
    }
  }
}
