/** Vector clocks track causality in every run of the replicas. */
module Causality {
  import opened VectorClocks

  /** A replica sends, or receives the message sent at an earlier position of the run. */
  datatype Event = Send(node: NodeId) | Deliver(node: NodeId, message: nat)

  /**
   A run: any interleaving, with messages delivered in any order, any number of
   times or never. Node names are unique, so a node is its name.
   */
  predicate IsRun(run: seq<Event>) {
    forall i :: 0 <= i < |run| && run[i].Deliver? ==> run[i].message < i && run[run[i].message].Send?
  }

  /** The clock of `node` after the first `i` events, by the replicas' own operations. */
  function ClockAfter(run: seq<Event>, i: nat, node: NodeId): (c: Clock)
    requires IsRun(run) && i <= |run|
    decreases i, 0
  {
    if i == 0 then map[]
    else if run[i - 1].node != node then ClockAfter(run, i - 1, node)
    else match run[i - 1]
      case Send(_) => Ticked(ClockAfter(run, i - 1, node), node)
      case Deliver(_, m) => Merge(ClockAfter(run, i - 1, node), Stamp(run, m))
  }

  /** The clock of an event's node just after the event; for a send, the clock in the message. */
  function Stamp(run: seq<Event>, e: nat): (c: Clock)
    requires IsRun(run) && e < |run|
    decreases e + 1, 1
  {
    ClockAfter(run, e + 1, run[e].node)
  }

  /** How many messages `node` sent in the first `i` events. */
  function Sent(run: seq<Event>, i: nat, node: NodeId): (n: nat)
    requires i <= |run|
  {
    if i == 0 then 0
    else Sent(run, i - 1, node) + if run[i - 1] == Send(node) then 1 else 0
  }

  /** The number a replica gives to the message sent at `e`; its counter starts at 1. */
  function SequenceNumber(run: seq<Event>, e: nat): (n: nat)
    requires e < |run|
  {
    1 + Sent(run, e, run[e].node)
  }

  /** The edges of causality: program order at one node, and from a send to its deliveries. */
  predicate Edge(run: seq<Event>, a: nat, b: nat)
    requires a < b < |run|
  {
    run[a].node == run[b].node || run[b] == Deliver(run[b].node, a)
  }

  /** Lamport's happened-before: the transitive closure of the edges. */
  ghost predicate Precedes(run: seq<Event>, a: nat, b: nat)
    requires b < |run|
    decreases b
  {
    a < b && (Edge(run, a, b) || exists c :: a < c < b && Precedes(run, a, c) && Edge(run, c, b))
  }

  ghost predicate PrecedesOrIs(run: seq<Event>, a: nat, b: nat)
    requires b < |run|
  {
    a == b || Precedes(run, a, b)
  }

  // ---------------------------------------------------------------------

  lemma {:induction false} SentMonotone(run: seq<Event>, i: nat, j: nat, node: NodeId)
    requires i <= j <= |run|
    ensures Sent(run, i, node) <= Sent(run, j, node)
    decreases j
  {
    if i < j {
      SentMonotone(run, i, j - 1, node);
    }
  }

  /** No clock knows of more messages than were sent, and each node knows all of its own. */
  lemma {:induction false} OwnEntry(run: seq<Event>, i: nat, node: NodeId, owner: NodeId)
    requires IsRun(run) && i <= |run|
    ensures Get(ClockAfter(run, i, node), owner) <= Sent(run, i, owner)
    ensures Get(ClockAfter(run, i, node), node) == Sent(run, i, node)
    decreases i
  {
    if i > 0 {
      OwnEntry(run, i - 1, node, owner);
      if run[i - 1].node == node && run[i - 1].Deliver? {
        var m := run[i - 1].message;
        OwnEntry(run, m + 1, run[m].node, owner);
        OwnEntry(run, m + 1, run[m].node, node);
        SentMonotone(run, m + 1, i - 1, owner);
        SentMonotone(run, m + 1, i - 1, node);
      }
    }
  }

  /** The sequence number of a message is its sender's own clock entry. */
  lemma SequenceIsOwnEntry(run: seq<Event>, e: nat)
    requires IsRun(run) && e < |run| && run[e].Send?
    ensures Get(Stamp(run, e), run[e].node) == SequenceNumber(run, e)
  {
    OwnEntry(run, e + 1, run[e].node, run[e].node);
  }

  /** The last event of `node` among the first `i`, if any. */
  ghost function LastOf(run: seq<Event>, i: nat, node: NodeId): (r: int)
    requires i <= |run|
    ensures -1 <= r < i
    ensures r >= 0 ==> run[r].node == node
    ensures forall k :: r < k < i ==> run[k].node != node
  {
    if i == 0 then -1
    else if run[i - 1].node == node then i - 1
    else LastOf(run, i - 1, node)
  }

  lemma {:induction false} ClockIsLastStamp(run: seq<Event>, i: nat, node: NodeId)
    requires IsRun(run) && i <= |run|
    ensures var p := LastOf(run, i, node);
            ClockAfter(run, i, node) == if p < 0 then map[] else Stamp(run, p)
    decreases i
  {
    if i > 0 && run[i - 1].node != node {
      ClockIsLastStamp(run, i - 1, node);
    }
  }

  /** What precedes an event is what its predecessor at the node and its message contain. */
  lemma PredecessorsSplit(run: seq<Event>, a: nat, b: nat)
    requires IsRun(run) && b < |run|
    ensures var p := LastOf(run, b, run[b].node);
            Precedes(run, a, b) <==>
              || (p >= 0 && PrecedesOrIs(run, a, p))
              || (run[b].Deliver? && PrecedesOrIs(run, a, run[b].message))
  {
    var p := LastOf(run, b, run[b].node);
    if Precedes(run, a, b) {
      if Edge(run, a, b) {
        EdgeSplit(run, a, a, b);
      } else {
        var c :| a < c < b && Precedes(run, a, c) && Edge(run, c, b);
        EdgeSplit(run, a, c, b);
      }
    }
    if p >= 0 && PrecedesOrIs(run, a, p) {
      assert Edge(run, p, b);
    }
    if run[b].Deliver? && PrecedesOrIs(run, a, run[b].message) {
      assert Edge(run, run[b].message, b);
    }
  }

  lemma EdgeSplit(run: seq<Event>, a: nat, c: nat, b: nat)
    requires IsRun(run) && c < b < |run|
    requires PrecedesOrIs(run, a, c) && Edge(run, c, b)
    ensures var p := LastOf(run, b, run[b].node);
            || (p >= 0 && PrecedesOrIs(run, a, p))
            || (run[b].Deliver? && PrecedesOrIs(run, a, run[b].message))
  {
    var p := LastOf(run, b, run[b].node);
    if run[c].node == run[b].node {
      assert c <= p;
      if c < p {
        assert Edge(run, c, p);
        assert Precedes(run, a, p);
      }
    }
  }

  /** Sends of one node are numbered in order. */
  lemma NumbersInOrder(run: seq<Event>, a: nat, b: nat)
    requires a < b < |run| && run[a].Send? && run[b] == Send(run[a].node)
    ensures SequenceNumber(run, a) < SequenceNumber(run, b)
  {
    SentMonotone(run, a + 1, b, run[a].node);
  }

  /** A clock entry counts exactly the messages of that node in the causal past. */
  lemma {:induction false} EntryCountsPast(run: seq<Event>, a: nat, b: nat)
    requires IsRun(run) && a < |run| && b < |run| && run[a].Send?
    ensures PrecedesOrIs(run, a, b) <==> SequenceNumber(run, a) <= Get(Stamp(run, b), run[a].node)
    decreases b
  {
    hide Precedes;
    var node, p := run[b].node, LastOf(run, b, run[b].node);
    PredecessorsSplit(run, a, b);
    ClockIsLastStamp(run, b, node);
    if p >= 0 {
      EntryCountsPast(run, a, p);
    }
    if run[b].Deliver? {
      EntryCountsPast(run, a, run[b].message);
      assert a != b;
    } else if run[a].node == node {
      SequenceIsOwnEntry(run, b);
      if a < b {
        SameNodePrecedes(run, a, b);
        NumbersInOrder(run, a, b);
      } else if a > b {
        NotLater(run, a, b);
        NumbersInOrder(run, b, a);
      }
    }
  }

  lemma SameNodePrecedes(run: seq<Event>, a: nat, b: nat)
    requires a < b < |run| && run[a].node == run[b].node
    ensures Precedes(run, a, b)
  {
    assert Edge(run, a, b);
  }

  lemma NotLater(run: seq<Event>, a: nat, b: nat)
    requires b < |run| && a >= b
    ensures !Precedes(run, a, b)
  {
  }

  /** Clocks only grow along causality. */
  lemma {:induction false} StampsGrow(run: seq<Event>, a: nat, b: nat)
    requires IsRun(run) && a < |run| && b < |run| && PrecedesOrIs(run, a, b)
    ensures AtMost(Stamp(run, a), Stamp(run, b))
    decreases b
  {
    if a != b {
      PredecessorsSplit(run, a, b);
      var p := LastOf(run, b, run[b].node);
      ClockIsLastStamp(run, b, run[b].node);
      if p >= 0 && PrecedesOrIs(run, a, p) {
        StampsGrow(run, a, p);
      } else {
        StampsGrow(run, a, run[b].message);
      }
    }
  }

  /**
   Theorem: in every run, a message causally precedes another exactly when its
   clock happens before the other's.
   */
  lemma ClocksDecideCausality(run: seq<Event>, a: nat, b: nat)
    requires IsRun(run) && a < |run| && b < |run| && a != b
    requires run[a].Send? && run[b].Send?
    ensures Precedes(run, a, b) <==> Before(Stamp(run, a), Stamp(run, b))
  {
    hide Precedes;
    EntryCountsPast(run, a, b);
    SequenceIsOwnEntry(run, a);
    if Precedes(run, a, b) {
      StampsGrow(run, a, b);
      EntryCountsPast(run, b, a);
      SequenceIsOwnEntry(run, b);
      if a < b {
        NotLater(run, b, a);
      } else {
        NotLater(run, a, b);
      }
      assert Get(Stamp(run, a), run[b].node) < Get(Stamp(run, b), run[b].node);
    }
  }

  /** Theorem: two messages have concurrent clocks exactly when neither causally precedes the other. */
  lemma ConcurrentMeansUnordered(run: seq<Event>, a: nat, b: nat)
    requires IsRun(run) && a < |run| && b < |run| && a != b
    requires run[a].Send? && run[b].Send?
    ensures !Before(Stamp(run, a), Stamp(run, b)) && !Before(Stamp(run, b), Stamp(run, a))
            <==> !Precedes(run, a, b) && !Precedes(run, b, a)
  {
    ClocksDecideCausality(run, a, b);
    ClocksDecideCausality(run, b, a);
  }

  /** No counter exceeds the length of the run, so 64-bit counters hold every run shorter than 2^64. */
  lemma {:induction false} CountersBounded(run: seq<Event>, i: nat, node: NodeId, owner: NodeId)
    requires IsRun(run) && i <= |run|
    ensures Get(ClockAfter(run, i, node), owner) <= Sent(run, i, owner) <= i
    decreases i
  {
    OwnEntry(run, i, node, owner);
    if i > 0 {
      CountersBounded(run, i - 1, node, owner);
    }
  }
}
