/** Vector clocks and replicas (crates/galleonfs/src/replication.rs). */
module VectorClocks {

  type NodeId = string

  /** The clock table; a missing node counts as zero. */
  type Clock = map<NodeId, nat>

  function Get(c: Clock, node: NodeId): (t: nat) {
    if node in c then c[node] else 0
  }

  function Max(a: nat, b: nat): (m: nat) {
    if a < b then b else a
  }

  function Ticked(c: Clock, node: NodeId): (r: Clock)
    ensures forall n :: Get(r, n) == Get(c, n) + if n == node then 1 else 0
  {
    c[node := Get(c, node) + 1]
  }

  /** The pointwise maximum. */
  function Merge(c: Clock, d: Clock): (r: Clock)
    ensures forall n :: Get(r, n) == Max(Get(c, n), Get(d, n))
  {
    map n | n in c.Keys + d.Keys :: Max(Get(c, n), Get(d, n))
  }

  ghost predicate AtMost(a: Clock, b: Clock) {
    forall n :: Get(a, n) <= Get(b, n)
  }

  /** The strict order on clocks: at most everywhere, less somewhere. */
  ghost predicate Before(a: Clock, b: Clock) {
    AtMost(a, b) && exists n :: Get(a, n) < Get(b, n)
  }

  /** VectorClock, a table updated in place. */
  class VectorClock {
    var clocks: Clock

    constructor ()
      ensures clocks == map[]
    {
      clocks := map[];
    }

    method Increment(node: NodeId)
      modifies this
      ensures clocks == Ticked(old(clocks), node)
    {
      var counter := Get(clocks, node);
      clocks := clocks[node := counter + 1];
    }

    /** Visits the other table's entries in some order, raising each to the larger time. */
    method Update(other: Clock)
      modifies this
      ensures clocks == Merge(old(clocks), other)
    {
      hide Merge, Get, Max;
      var pending := other.Keys;
      ghost var visited: Clock := map[];
      ghost var before := clocks;
      MergeEmpty(before);
      while pending != {}
        invariant pending <= other.Keys
        invariant visited == map n | n in other && n !in pending :: other[n]
        invariant clocks == Merge(before, visited)
        decreases |pending|
      {
        var node :| node in pending;
        var current := Get(clocks, node);
        MergeOne(before, visited, node, other[node]);
        clocks := clocks[node := Max(current, other[node])];
        visited := visited[node := other[node]];
        pending := pending - {node};
      }
      assert visited == other;
    }

    /** happens_before: stops at the first node where this clock is ahead. */
    method HappensBefore(other: Clock) returns (r: bool)
      ensures r <==> Before(clocks, other)
    {
      var strictlyLess := false;
      var allNodes := clocks.Keys + other.Keys;
      var pending := allNodes;
      while pending != {}
        invariant pending <= allNodes
        invariant forall n :: n in allNodes - pending ==> Get(clocks, n) <= Get(other, n)
        invariant strictlyLess <==> exists n :: n in allNodes - pending && Get(clocks, n) < Get(other, n)
        decreases |pending|
      {
        var node :| node in pending;
        var selfTime, otherTime := Get(clocks, node), Get(other, node);
        if selfTime > otherTime {
          return false;
        } else if selfTime < otherTime {
          strictlyLess := true;
        }
        pending := pending - {node};
        assert node in allNodes - pending;
      }
      r := strictlyLess;
      AbsentNodes(clocks, other);
    }

    method ConcurrentWith(other: VectorClock) returns (r: bool)
      ensures r <==> !Before(clocks, other.clocks) && !Before(other.clocks, clocks)
    {
      var before := HappensBefore(other.clocks);
      var after := other.HappensBefore(clocks);
      r := !before && !after;
    }
  }

  /** Merging one more entry raises that entry only. */
  lemma MergeOne(c: Clock, d: Clock, node: NodeId, time: nat)
    requires node !in d
    ensures Merge(c, d)[node := Max(Get(Merge(c, d), node), time)] == Merge(c, d[node := time])
  {
    var l, r := Merge(c, d)[node := Max(Get(Merge(c, d), node), time)], Merge(c, d[node := time]);
    assert l.Keys == r.Keys;
    forall n | n in l
      ensures l[n] == r[n]
    {
    }
  }

  lemma MergeEmpty(c: Clock)
    ensures Merge(c, map[]) == c
  {
  }

  lemma AbsentNodes(a: Clock, b: Clock)
    ensures forall n :: n !in a.Keys + b.Keys ==> Get(a, n) == 0 && Get(b, n) == 0
  {
  }

  /** What a replica sends: the sequence number and a copy of its clock. */
  datatype Message<T> = Message(operation: T, sequenceNumber: nat, clock: Clock)

  /** MultiMasterReplication: the local clock, the sequence counter and the operation log. */
  class Replica<T> {
    const id: NodeId
    var clock: VectorClock
    var sequenceCounter: nat
    var log: seq<Message<T>>

    constructor (id: NodeId)
      ensures this.id == id && fresh(clock)
      ensures clock.clocks == map[] && sequenceCounter == 1 && log == []
    {
      this.id := id;
      clock := new VectorClock();
      sequenceCounter := 1;
      log := [];
    }

    /** replicate_operation up to the network: number, stamp and log the operation. */
    method Replicate(operation: T) returns (m: Message<T>)
      modifies this`sequenceCounter, this`log, clock
      ensures clock.clocks == Ticked(old(clock.clocks), id)
      ensures sequenceCounter == old(sequenceCounter) + 1
      ensures m == Message(operation, old(sequenceCounter), clock.clocks)
      ensures log == old(log) + [m]
    {
      clock.Increment(id);
      var number := sequenceCounter;
      sequenceCounter := sequenceCounter + 1;
      m := Message(operation, number, clock.clocks);
      log := log + [m];
    }

    /** handle_replication_message: merge the clock, then log the message. */
    method Handle(m: Message<T>)
      modifies this`log, clock
      ensures clock.clocks == Merge(old(clock.clocks), m.clock)
      ensures log == old(log) + [m]
    {
      clock.Update(m.clock);
      log := log + [m];
    }
  }
}
