/** Hash trees laid out on disk are the trees that lookup is proved for (ext4-view-rs/src/dir_htree.rs). */
module DirectoryTree {
  import opened Bytes
  import opened DirectoryHtree
  import opened DirectoryLayout
  import opened Wrappers
  import opened Numbers

  /** A leaf, or a node with the eight bytes before it, its children and the unused bytes after it. */
  datatype Tree =
    | Leaf(slots: seq<Slot>)
    | Node(head: seq<byte>, limit: u16, kids: seq<Kid>, rest: seq<byte>)

  /** A child: the lowest hash it may hold, which is not stored for the first one, its block and its tree. */
  datatype Kid = Kid(hash: u32, block: u32, tree: Tree)

  function Pointers(kids: seq<Kid>): (ps: seq<Pointer>)
    requires kids != []
    ensures |ps| == |kids| - 1
    ensures forall i :: 0 <= i < |ps| ==> ps[i] == Pointer(kids[i + 1].hash, kids[i + 1].block)
  {
    seq(|kids| - 1, i requires 0 <= i < |kids| - 1 => Pointer(kids[i + 1].hash, kids[i + 1].block))
  }

  predicate Countable(kids: seq<Kid>) {
    0 < |kids| < 0x1_0000
  }

  function KidBytes(limit: u16, kids: seq<Kid>): (b: seq<byte>)
    requires Countable(kids)
  {
    NodeBytes(limit, kids[0].block, Pointers(kids))
  }

  /** Every child's block holds its tree. */
  ghost predicate Stored(dir: Directory, kids: seq<Kid>, depth: nat)
    decreases depth, 1
  {
    forall i :: 0 <= i < |kids| ==>
      dir.read(kids[i].block).Ok? && LaidOut(dir, kids[i].tree, depth, dir.read(kids[i].block).value)
  }

  /** `bytes` is the block of a tree with `depth` levels of nodes. */
  ghost predicate LaidOut(dir: Directory, t: Tree, depth: nat, bytes: seq<byte>)
    decreases depth, 0
  {
    match t
    case Leaf(slots) => depth == 0 && AllFitting(slots) && bytes == LeafBytes(slots)
    case Node(head, limit, kids, rest) =>
      && depth > 0 && |head| == 8 && Countable(kids)
      && bytes == head + (KidBytes(limit, kids) + rest)
      && Stored(dir, kids, depth - 1)
  }

  function KidLow(kids: seq<Kid>, i: nat, low: nat): (h: nat)
    requires i < |kids|
  {
    if i == 0 then low else kids[i].hash
  }

  function KidHigh(kids: seq<Kid>, i: nat, high: nat): (h: nat)
    requires i < |kids|
  {
    if i + 1 < |kids| then kids[i + 1].hash else high
  }

  /** The children's ranges follow each other within `[low, high)`. */
  ghost predicate Divided(dir: Directory, kids: seq<Kid>, depth: nat, low: nat, high: nat)
    decreases depth, 1
  {
    && (forall i, j :: 0 < i < j < |kids| ==> kids[i].hash <= kids[j].hash)
    && (forall i :: 0 < i < |kids| ==> low <= kids[i].hash <= high)
    && forall i :: 0 <= i < |kids| ==> InOrder(dir, kids[i].tree, depth, KidLow(kids, i, low), KidHigh(kids, i, high))
  }

  /** Every name of the tree hashes into the range of its leaf. */
  ghost predicate InOrder(dir: Directory, t: Tree, depth: nat, low: nat, high: nat)
    decreases depth, 0
  {
    match t
    case Leaf(slots) => InRange(dir, UsedEntries(slots), low, high)
    case Node(_, _, kids, _) => depth > 0 && Divided(dir, kids, depth - 1, low, high)
  }

  /** Reading a node gives its children back. */
  lemma NodeReads(limit: u16, kids: seq<Kid>, data: seq<byte>, i: nat)
    requires Countable(kids) && KidBytes(limit, kids) <= data && i < |kids|
    ensures NodeOf(data).Ok? && NumEntries(NodeOf(data).value) == |kids|
    ensures Key(NodeOf(data).value, i) == if i == 0 then 0 else kids[i].hash
    ensures Child(NodeOf(data).value, i) == kids[i].block
  {
    hide NodeBytes, NodeOf, NumEntries, Key, Child;
    NodeRoundTrip(limit, kids[0].block, Pointers(kids), data, i);
  }

  lemma {:induction false} NodeIsGood(
      dir: Directory, limit: u16, kids: seq<Kid>, data: seq<byte>, depth: nat, low: nat, high: nat)
    requires Countable(kids) && KidBytes(limit, kids) <= data
    requires Stored(dir, kids, depth) && Divided(dir, kids, depth, low, high)
    ensures NodeOf(data).Ok? && GoodNode(dir, NodeOf(data).value, depth, low, high)
    decreases depth, 1
  {
    hide KidBytes, NodeOf, NumEntries, Key, Child, GoodBlock, LaidOut, InOrder;
    NodeReads(limit, kids, data, 0);
    forall i | 0 <= i < |kids|
      ensures Holds(NodeOf(data).value, kids, i)
    {
      NodeReads(limit, kids, data, i);
    }
    forall i | 0 <= i < |kids|
      ensures GoodBlock(dir, kids[i].block, depth, KidLow(kids, i, low), KidHigh(kids, i, high))
    {
      TreeIsGood(dir, kids[i].tree, kids[i].block, depth, KidLow(kids, i, low), KidHigh(kids, i, high));
    }
    KidsAreGood(dir, NodeOf(data).value, kids, depth, low, high);
  }

  /** Entry `i` of a node is that of child `i`. */
  predicate Holds(node: seq<byte>, kids: seq<Kid>, i: nat)
    requires i < |kids|
  {
    i < NumEntries(node) && Key(node, i) == (if i == 0 then 0 else kids[i].hash) && Child(node, i) == kids[i].block
  }

  lemma KidsAreGood(dir: Directory, node: seq<byte>, kids: seq<Kid>, depth: nat, low: nat, high: nat)
    requires NumEntries(node) == |kids| > 0 && forall i :: 0 <= i < |kids| ==> Holds(node, kids, i)
    requires forall i, j :: 0 < i < j < |kids| ==> kids[i].hash <= kids[j].hash
    requires forall i :: 0 < i < |kids| ==> low <= kids[i].hash <= high
    requires forall i :: 0 <= i < |kids| ==>
               GoodBlock(dir, kids[i].block, depth, KidLow(kids, i, low), KidHigh(kids, i, high))
    ensures GoodNode(dir, node, depth, low, high)
  {
    hide NumEntries, Key, Child, GoodBlock;
    forall i | 0 <= i < |kids|
      ensures GoodBlock(dir, Child(node, i), depth, ChildLow(node, i, low), ChildHigh(node, i, high))
    {
      assert Holds(node, kids, i);
      assert i + 1 < |kids| ==> Holds(node, kids, i + 1);
    }
    forall i, j | 0 <= i < j < |kids|
      ensures Key(node, i) <= Key(node, j)
    {
      assert Holds(node, kids, i) && Holds(node, kids, j);
    }
    forall i | 0 < i < |kids|
      ensures low <= Key(node, i) <= high
    {
      assert Holds(node, kids, i);
    }
  }

  /** A tree that is laid out, with its names in order, is one that lookup is proved for. */
  lemma {:induction false} TreeIsGood(dir: Directory, t: Tree, block: nat, depth: nat, low: nat, high: nat)
    requires dir.read(block).Ok? && LaidOut(dir, t, depth, dir.read(block).value) && InOrder(dir, t, depth, low, high)
    ensures GoodBlock(dir, block, depth, low, high)
    decreases depth, 0
  {
    hide KidBytes, NodeOf, Entries, GoodNode, LeafBytes, UsedEntries;
    var bytes := dir.read(block).value;
    match t
    case Leaf(slots) =>
      LeafReads(slots, bytes);
    case Node(head, limit, kids, rest) =>
      assert bytes[8..] == KidBytes(limit, kids) + rest;
      NodeIsGood(dir, limit, kids, bytes[8..], depth - 1, low, high);
  }

  lemma LeafReads(slots: seq<Slot>, bytes: seq<byte>)
    requires AllFitting(slots) && bytes == LeafBytes(slots)
    ensures Entries(bytes, 0) == Ok(UsedEntries(slots))
  {
    hide Entries, LeafBytes;
    LeafRoundTrip([], slots);
    assert [] + bytes == bytes;
  }

  // ---------------------------------------------------------------------
  // The root block

  /** The root block: "." in 12 bytes, ".." in its place, the tree's header at 0x18, and the root node at 0x20. */
  predicate RootLaidOut(bytes: seq<byte>, dot: Slot, dotDot: Slot, depth: byte, limit: u16, kids: seq<Kid>) {
    && |bytes| >= 1024 && Countable(kids)
    && Fitting(dot) && dot.Used? && dot.entry.name == CURRENT && SlotBytes(dot) <= bytes
    && Fitting(dotDot) && dotDot.Used? && dotDot.entry.name == PARENT && SlotBytes(dotDot) <= bytes[12..]
    && bytes[0x1c] == 1 && bytes[0x1e] == depth
    && KidBytes(limit, kids) <= bytes[0x20..]
  }

  /** Theorem: a directory laid out from a tree with its names in order is well formed, at any depth. */
  lemma LaidOutIsGood(dir: Directory, dot: Slot, dotDot: Slot, depth: byte, limit: u16, kids: seq<Kid>)
    requires Valid(dir) && (forall name :: dir.hash(name) < HASH_LIMIT)
    requires dir.read(0).Ok? && RootLaidOut(dir.read(0).value, dot, dotDot, depth, limit, kids)
    requires Stored(dir, kids, depth) && Divided(dir, kids, depth, 0, HASH_LIMIT)
    ensures GoodDirectory(dir)
  {
    hide KidBytes, NodeOf, FromBytes, GoodNode, Stored, Divided, SlotBytes, Fitting;
    var root := dir.read(0).value;
    SlotRoundTrip(dot, root);
    SlotRoundTrip(dotDot, root[12..]);
    NodeIsGood(dir, limit, kids, root[0x20..], depth, 0, HASH_LIMIT);
  }

  // ---------------------------------------------------------------------
  // What is found is what was laid out

  /** The entries in use in the leaves of a tree, from left to right. */
  function TreeEntries(t: Tree, depth: nat): (es: seq<DirEntry>)
    decreases depth, 0, 0
  {
    match t
    case Leaf(slots) => UsedEntries(slots)
    case Node(_, _, kids, _) => if depth == 0 then [] else KidEntries(kids, depth - 1)
  }

  function KidEntries(kids: seq<Kid>, depth: nat): (es: seq<DirEntry>)
    decreases depth, 1, |kids|
  {
    if kids == [] then [] else TreeEntries(kids[0].tree, depth) + KidEntries(kids[1..], depth)
  }

  lemma {:induction false} TreeReads(dir: Directory, t: Tree, block: nat, depth: nat)
    requires dir.read(block).Ok? && LaidOut(dir, t, depth, dir.read(block).value)
    ensures BlockEntries(dir, block, depth) == TreeEntries(t, depth)
    decreases depth, 0, 0
  {
    hide KidBytes, NodeOf, Entries, LeafBytes, UsedEntries;
    var bytes := dir.read(block).value;
    match t
    case Leaf(slots) =>
      LeafReads(slots, bytes);
    case Node(head, limit, kids, rest) =>
      assert bytes[8..] == KidBytes(limit, kids) + rest;
      NodeReads(limit, kids, bytes[8..], 0);
      KidsRead(dir, limit, kids, bytes[8..], depth - 1, 0);
      assert kids[0..] == kids;
  }

  lemma {:induction false} KidsRead(dir: Directory, limit: u16, kids: seq<Kid>, data: seq<byte>, depth: nat, i: nat)
    requires Countable(kids) && KidBytes(limit, kids) <= data && Stored(dir, kids, depth) && i <= |kids|
    ensures NodeOf(data).Ok? && NumEntries(NodeOf(data).value) == |kids|
    ensures NodeEntries(dir, NodeOf(data).value, depth, i) == KidEntries(kids[i..], depth)
    decreases depth, 1, |kids| - i
  {
    hide KidBytes, NodeOf, NumEntries, Key, Child, LaidOut, BlockEntries, TreeEntries;
    NodeReads(limit, kids, data, if i < |kids| then i else 0);
    if i < |kids| {
      TreeReads(dir, kids[i].tree, kids[i].block, depth);
      KidsRead(dir, limit, kids, data, depth, i + 1);
      assert kids[i..][1..] == kids[i + 1..];
    }
  }

  /** The root block's two entries, read at bytes 0 and 12. */
  lemma DotsRead(bytes: seq<byte>, dot: Slot, dotDot: Slot, depth: byte, limit: u16, kids: seq<Kid>)
    requires RootLaidOut(bytes, dot, dotDot, depth, limit, kids)
    ensures DotOrDotDot(bytes, CURRENT) == Ok(Some(dot.entry)) && DotOrDotDot(bytes, PARENT) == Ok(Some(dotDot.entry))
  {
    hide KidBytes, FromBytes, SlotBytes, Fitting;
    SlotRoundTrip(dot, bytes);
    SlotRoundTrip(dotDot, bytes[12..]);
    assert bytes[0..] == bytes;
  }

  /**
   Theorem: in a directory laid out from a tree with its names in order, looking
   up a name finds what a search of the entries laid out finds: ".", ".." and
   the entries of the leaves, from left to right.
   */
  lemma LookupFindsLaidOut(
      dir: Directory, dot: Slot, dotDot: Slot, depth: byte, limit: u16, kids: seq<Kid>, name: seq<byte>)
    requires Valid(dir) && (forall n :: dir.hash(n) < HASH_LIMIT)
    requires dir.read(0).Ok? && RootLaidOut(dir.read(0).value, dot, dotDot, depth, limit, kids)
    requires Stored(dir, kids, depth) && Divided(dir, kids, depth, 0, HASH_LIMIT)
    ensures dot.Used? && dotDot.Used?
    ensures Lookup(dir, name) == Find([dot.entry, dotDot.entry] + KidEntries(kids, depth), name)
    ensures Lookup(dir, CURRENT) == Ok(dot.entry) && Lookup(dir, PARENT) == Ok(dotDot.entry)
  {
    hide KidBytes, NodeOf, FromBytes, GoodNode, Stored, Divided, SlotBytes, Fitting, NodeEntries, KidEntries;
    var root := dir.read(0).value;
    LaidOutIsGood(dir, dot, dotDot, depth, limit, kids);
    DotsRead(root, dot, dotDot, depth, limit, kids);
    KidsRead(dir, limit, kids, root[0x20..], depth, 0);
    assert kids[0..] == kids;
    hide DotOrDotDot, Lookup, Find;
    LookupIsScan(dir, name);
    DotsFound(dir, root);
  }

  lemma DotsFound(dir: Directory, root: seq<byte>)
    requires Valid(dir) && dir.read(0) == Ok(root)
    requires DotOrDotDot(root, CURRENT).Ok? && DotOrDotDot(root, PARENT).Ok?
    ensures DotOrDotDot(root, CURRENT).value.Some? && DotOrDotDot(root, PARENT).value.Some?
    ensures Lookup(dir, CURRENT) == Ok(DotOrDotDot(root, CURRENT).value.value)
    ensures Lookup(dir, PARENT) == Ok(DotOrDotDot(root, PARENT).value.value)
  {
  }

  /** A tree of another hash version is refused, for every name but "." and "..". */
  lemma OtherHashRefused(dir: Directory, name: seq<byte>)
    requires Valid(dir) && dir.read(0).Ok? && name != CURRENT && name != PARENT
    ensures dir.read(0).value[0x1c] != 1 ==> Lookup(dir, name) == Err(DirectoryHash(dir.read(0).value[0x1c]))
  {
  }

  // ---------------------------------------------------------------------
  // There are such directories at every depth

  /** Nodes with one child each, down to a leaf. */
  function Chain(block: u32, depth: nat, slots: seq<Slot>): (t: Tree)
    requires block + depth < 0xFFFF_FFFF
    decreases depth
  {
    if depth == 0 then Leaf(slots)
    else Node(Zeros(8), 1, [Kid(0, block + 1, Chain(block + 1, depth - 1, slots))], Zeros(1008))
  }

  function OnlyChild(block: u32): (b: seq<byte>)
    ensures |b| == 8
  {
    NodeBytes(1, block, [])
  }

  function ChainBlock(block: nat, last: u32, slots: seq<Slot>): (b: seq<byte>)
    requires AllFitting(slots) && last < 0xFFFF_FFFF
  {
    if block < last then Zeros(8) + (OnlyChild(block + 1) + Zeros(1008)) else LeafBytes(slots)
  }

  function Dot(name: seq<byte>): (s: Slot)
    requires |name| <= 4
    ensures SlotSize(s) == 12
  {
    Used(DirEntry(2, name, 2), Zeros(4 - |name|))
  }

  lemma DotsFit()
    ensures Fitting(Dot(CURRENT)) && Fitting(Dot(PARENT))
  {
  }

  function ChainRoot(depth: byte): (b: seq<byte>)
    ensures |b| == 1024
  {
    DotsFit();
    SlotBytes(Dot(CURRENT)) + SlotBytes(Dot(PARENT)) + [0, 0, 0, 0, 1, 0, depth, 0] + (OnlyChild(1) + Zeros(984))
  }

  ghost function ChainDirectory(depth: byte, slots: seq<Slot>): (dir: Directory)
    requires AllFitting(slots)
  {
    Directory(b => Ok(if b == 0 then ChainRoot(depth) else ChainBlock(b, depth + 1, slots)), name => 0)
  }

  lemma {:induction false} ChainLaidOut(depth: byte, slots: seq<Slot>, block: u32)
    requires AllFitting(slots) && 0 < block <= depth + 1
    ensures LaidOut(ChainDirectory(depth, slots), Chain(block, depth + 1 - block, slots), depth + 1 - block,
                    ChainBlock(block, depth + 1, slots))
    decreases depth + 1 - block
  {
    hide LeafBytes, NodeBytes, Zeros, AllFitting, ChainRoot;
    if block <= depth {
      var kids := [Kid(0, block + 1, Chain(block + 1, depth - block, slots))];
      assert Pointers(kids) == [];
      ChainLaidOut(depth, slots, block + 1);
    }
  }

  lemma {:induction false} ChainInOrder(dir: Directory, slots: seq<Slot>, block: u32, depth: nat)
    requires block + depth < 0xFFFF_FFFF && forall name :: dir.hash(name) == 0
    ensures InOrder(dir, Chain(block, depth, slots), depth, 0, HASH_LIMIT)
    decreases depth
  {
    hide Zeros;
    if depth > 0 {
      ChainInOrder(dir, slots, block + 1, depth - 1);
    }
  }

  lemma RootOfChain(depth: byte, kids: seq<Kid>)
    requires |kids| == 1 && kids[0].block == 1
    ensures RootLaidOut(ChainRoot(depth), Dot(CURRENT), Dot(PARENT), depth, 1, kids)
  {
    hide NodeBytes, SlotBytes, Zeros;
    DotsFit();
    var a, b := SlotBytes(Dot(CURRENT)), SlotBytes(Dot(PARENT));
    var mid: seq<byte> := [0, 0, 0, 0, 1, 0, depth, 0];
    var root := ChainRoot(depth);
    assert Pointers(kids) == [];
    assert root == a + (b + (mid + (OnlyChild(1) + Zeros(984))));
    assert root[12..] == b + (mid + (OnlyChild(1) + Zeros(984)));
    assert root[0x18..] == mid + (OnlyChild(1) + Zeros(984));
    assert root[0x18..][4] == root[0x1c] && root[0x18..][6] == root[0x1e];
    assert root[0x20..] == OnlyChild(1) + Zeros(984);
  }

  lemma RootByte(depth: byte, kids: seq<Kid>)
    requires RootLaidOut(ChainRoot(depth), Dot(CURRENT), Dot(PARENT), depth, 1, kids)
    ensures ChainRoot(depth)[0x1e] == depth
  {
  }

  /** At every depth there is a well-formed directory, with any leaf block of at least 1024 bytes. */
  lemma WellFormedAtAnyDepth(depth: byte, slots: seq<Slot>) returns (dir: Directory)
    requires AllFitting(slots) && |LeafBytes(slots)| >= 1024
    ensures GoodDirectory(dir) && dir.read(0).value[0x1e] == depth
  {
    hide LeafBytes, LaidOut, InOrder, RootLaidOut, GoodDirectory;
    dir := ChainDirectory(depth, slots);
    var kids := [Kid(0, 1, Chain(1, depth, slots))];
    ChainLaidOut(depth, slots, 1);
    ChainInOrder(dir, slots, 1, depth);
    RootOfChain(depth, kids);
    assert ChainRoot(depth)[0x1e] == depth by { RootByte(depth, kids); }
    LaidOutIsGood(dir, Dot(CURRENT), Dot(PARENT), depth, 1, kids);
  }
}
