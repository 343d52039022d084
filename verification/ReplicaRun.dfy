/** Replica objects driven through a run hold the clocks and give the numbers the run is reasoned about with. */
module ReplicaRuns {
  import opened VectorClocks
  import opened Causality

  type Replicas = map<NodeId, Replica<nat>>

  /** Every replica has its own name, object and clock. */
  ghost predicate Separate(replicas: Replicas)
    reads replicas.Values
  {
    && (forall n :: n in replicas ==> replicas[n].id == n)
    && forall n, m :: n in replicas && m in replicas && n != m ==>
         replicas[n] != replicas[m] && replicas[n].clock != replicas[m].clock
  }

  /** The state of `node` after the first `i` events. */
  ghost predicate Holds(replica: Replica<nat>, run: seq<Event>, i: nat, node: NodeId)
    requires IsRun(run) && i <= |run|
    reads replica, replica.clock
  {
    && replica.clock.clocks == ClockAfter(run, i, node)
    && replica.sequenceCounter == 1 + Sent(run, i, node)
  }

  ghost predicate AllHold(replicas: Replicas, run: seq<Event>, i: nat)
    requires IsRun(run) && i <= |run|
    reads replicas.Values, set n | n in replicas :: replicas[n].clock
  {
    forall n :: n in replicas ==> Holds(replicas[n], run, i, n)
  }

  /** The messages of the first `i` events, by the position of their send. */
  ghost predicate Posted(messages: map<nat, Message<nat>>, run: seq<Event>, i: nat)
    requires IsRun(run) && i <= |run|
  {
    forall e: nat :: e < i && run[e].Send? ==>
      e in messages && messages[e] == Message(e, SequenceNumber(run, e), Stamp(run, e))
  }

  /** One replica for every node of the run. */
  method Create(run: seq<Event>) returns (replicas: Replicas)
    requires IsRun(run)
    ensures fresh(replicas.Values) && fresh(set n | n in replicas :: replicas[n].clock)
    ensures Separate(replicas) && AllHold(replicas, run, 0)
    ensures forall i :: 0 <= i < |run| ==> run[i].node in replicas
  {
    replicas := map[];
    for i := 0 to |run|
      invariant fresh(replicas.Values) && fresh(set n | n in replicas :: replicas[n].clock)
      invariant Separate(replicas) && AllHold(replicas, run, 0)
      invariant forall k :: 0 <= k < i ==> run[k].node in replicas
    {
      if run[i].node !in replicas {
        var replica := new Replica<nat>(run[i].node);
        replicas := replicas[run[i].node := replica];
      }
    }
  }

  /** A send, by the replica's own method. */
  method SendAt(run: seq<Event>, i: nat, replicas: Replicas, replica: Replica<nat>) returns (m: Message<nat>)
    requires IsRun(run) && i < |run| && run[i].Send?
    requires run[i].node in replicas && replicas[run[i].node] == replica
    requires Separate(replicas) && AllHold(replicas, run, i)
    modifies replica`sequenceCounter, replica`log, replica.clock
    ensures Separate(replicas) && AllHold(replicas, run, i + 1)
    ensures m == Message(i, SequenceNumber(run, i), Stamp(run, i))
  {
    hide ClockAfter;
    var node := run[i].node;
    assert Holds(replica, run, i, node);
    m := replica.Replicate(i);
    forall n | n in replicas
      ensures Holds(replicas[n], run, i + 1, n)
    {
      StepOfClock(run, i, n);
      assert old(Holds(replicas[n], run, i, n));
    }
  }

  /** A delivery, by the replica's own method. */
  method DeliverAt(run: seq<Event>, i: nat, replicas: Replicas, replica: Replica<nat>, m: Message<nat>)
    requires IsRun(run) && i < |run| && run[i].Deliver?
    requires run[i].node in replicas && replicas[run[i].node] == replica
    requires Separate(replicas) && AllHold(replicas, run, i)
    requires m.clock == Stamp(run, run[i].message)
    modifies replica`log, replica.clock
    ensures Separate(replicas) && AllHold(replicas, run, i + 1)
  {
    hide ClockAfter, Stamp;
    var node := run[i].node;
    assert Holds(replica, run, i, node);
    replica.Handle(m);
    forall n | n in replicas
      ensures Holds(replicas[n], run, i + 1, n)
    {
      StepOfClock(run, i, n);
      assert old(Holds(replicas[n], run, i, n));
    }
  }

  /** The replicas' own methods, called in the order of the run, keep the clocks and give the numbers of the run. */
  method Drive(run: seq<Event>) returns (replicas: Replicas, messages: map<nat, Message<nat>>)
    requires IsRun(run)
    ensures forall i :: 0 <= i < |run| ==> run[i].node in replicas
    ensures AllHold(replicas, run, |run|) && Posted(messages, run, |run|)
  {
    hide ClockAfter, Separate, AllHold, Stamp, SequenceNumber;
    replicas := Create(run);
    messages := map[];
    for i := 0 to |run|
      invariant fresh(replicas.Values) && fresh(set n | n in replicas :: replicas[n].clock)
      invariant Separate(replicas) && AllHold(replicas, run, i) && Posted(messages, run, i)
    {
      var replica := replicas[run[i].node];
      assert replica in replicas.Values;
      match run[i] {
        case Send(_) =>
          var m := SendAt(run, i, replicas, replica);
          messages := messages[i := m];
        case Deliver(_, e) =>
          DeliverAt(run, i, replicas, replica, messages[e]);
      }
    }
  }

  /** What event `i` does to the clock of `node`. */
  ghost predicate ClockStep(run: seq<Event>, i: nat, node: NodeId)
    requires IsRun(run) && i < |run|
  {
    ClockAfter(run, i + 1, node) ==
      if run[i].node != node then ClockAfter(run, i, node)
      else match run[i]
        case Send(_) => Ticked(ClockAfter(run, i, node), node)
        case Deliver(_, m) => Merge(ClockAfter(run, i, node), Stamp(run, m))
  }

  lemma StepOfClock(run: seq<Event>, i: nat, node: NodeId)
    requires IsRun(run) && i < |run|
    ensures ClockStep(run, i, node)
  {
  }
}
