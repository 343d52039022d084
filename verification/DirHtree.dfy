/** Directory entries and hash-tree lookup (ext4-view-rs/src/dir_entry.rs and dir_htree.rs). */
module DirectoryHtree {
  import opened Bytes
  import opened LittleEndian
  import opened Wrappers

  datatype Error = Corrupt | DirectoryHash(hashType: byte) | NotFound | Unreadable

  type Result<T> = Fallible<T, Error>

  // ---------------------------------------------------------------------
  // Directory entries

  datatype DirEntry = DirEntry(inode: nat, name: seq<byte>, fileType: byte)

  const NAME_OFFSET: nat := 8

  /** What from_bytes yields: an entry, or nothing for a special record, and the record's length. */
  datatype Record = Record(entry: Option<DirEntry>, size: nat)

  /** DirEntry::from_bytes. */
  function FromBytes(bytes: seq<byte>): (r: Result<Record>)
    ensures r.Ok? ==> r.value.size >= NAME_OFFSET
    ensures r.Ok? && r.value.entry.Some? ==> IsName(r.value.entry.value.name) && r.value.entry.value.inode != 0
  {
    if |bytes| < NAME_OFFSET then Err(Corrupt)
    else
      var inode := ReadLe(bytes, 0, 4);
      var recLen := ReadLe(bytes, 4, 2);
      if recLen < NAME_OFFSET then Err(Corrupt)
      else if inode == 0 then Ok(Record(None, recLen))
      else
        var nameEnd := NAME_OFFSET + bytes[6];
        if nameEnd > |bytes| then Err(Corrupt)
        else if !(1 <= bytes[7] <= 7) then Err(Corrupt)
        else
          var name := bytes[NAME_OFFSET..nameEnd];
          if !IsName(name) then Err(Corrupt)
          else Ok(Record(Some(DirEntry(inode, name, bytes[7])), recLen))
  }

  /** All entries of a block from an offset on, when every record can be read. */
  function Entries(block: seq<byte>, offset: nat): (r: Result<seq<DirEntry>>)
    decreases |block| - offset
  {
    if offset >= |block| then Ok([])
    else match FromBytes(block[offset..])
      case Err(e) => Err(e)
      case Ok(record) =>
        match Entries(block, offset + record.size)
        case Err(e) => Err(e)
        case Ok(rest) => Ok((if record.entry.Some? then [record.entry.value] else []) + rest)
  }

  /** The first entry with a name. */
  function Find(es: seq<DirEntry>, name: seq<byte>): (r: Result<DirEntry>)
    ensures r.Ok? ==> r.value in es && r.value.name == name
    ensures r.Err? ==> r.error == NotFound && forall i :: 0 <= i < |es| ==> es[i].name != name
  {
    if es == [] then Err(NotFound)
    else if es[0].name == name then Ok(es[0])
    else Find(es[1..], name)
  }

  // ---------------------------------------------------------------------
  // Internal nodes, as arrays of eight-byte entries: hash, then child block

  /** InternalNode::new: the raw entries in use, the header included. */
  function NodeOf(bytes: seq<byte>): (r: Result<seq<byte>>)
    ensures r.Ok? ==> |r.value| % 8 == 0
  {
    if |bytes| < 8 then Err(Corrupt)
    else
      var end := 8 * ReadLe(bytes, 2, 2);
      if end > |bytes| then Err(Corrupt) else Ok(bytes[..end])
  }

  function NumEntries(node: seq<byte>): (n: nat)
    ensures 8 * n <= |node|
  {
    |node| / 8
  }

  /** The hash key of an entry; implicitly zero for the header. */
  function Key(node: seq<byte>, i: nat): (h: nat)
    requires i < NumEntries(node)
  {
    if i == 0 then 0 else ReadLe(node, 8 * i, 4)
  }

  function Child(node: seq<byte>, i: nat): (b: nat)
    requires i < NumEntries(node)
  {
    ReadLe(node, 8 * i + 4, 4)
  }

  predicate Sorted(node: seq<byte>) {
    forall i, j :: 0 <= i < j < NumEntries(node) ==> Key(node, i) <= Key(node, j)
  }

  /** The last entry whose key is at most `hash`. */
  predicate IsSlot(node: seq<byte>, hash: nat, i: nat) {
    && i < NumEntries(node) && Key(node, i) <= hash
    && forall j :: i < j < NumEntries(node) ==> Key(node, j) > hash
  }

  /** What a binary search knows: entries before `left` are at most the hash, those from `right` on above it. */
  predicate Bounds(node: seq<byte>, hash: nat, left: nat, right: nat) {
    && left <= right <= NumEntries(node)
    && (left > 0 ==> Key(node, left - 1) <= hash)
    && (right < NumEntries(node) ==> Key(node, right) > hash)
  }

  function Middle(left: nat, last: nat): (mid: nat)
    requires left <= last
    ensures left <= mid <= last
  {
    (left + last) / 2
  }

  /** The entry a binary search between `left` and `right` (exclusive) settles on. */
  function Search(node: seq<byte>, hash: nat, left: nat, right: nat): (slot: int)
    requires Bounds(node, hash, left, right)
    ensures NumEntries(node) > 0 ==> 0 <= slot < NumEntries(node)
    decreases right - left
  {
    if left == right then left - 1
    else
      var mid := Middle(left, right - 1);
      if Key(node, mid) <= hash then Search(node, hash, mid + 1, right)
      else Search(node, hash, left, mid)
  }

  /** One comparison; the checked subtraction cannot fail, since the header's key is zero. */
  lemma SearchStep(node: seq<byte>, hash: nat, left: nat, right: nat, mid: nat)
    requires Bounds(node, hash, left, right) && left < right && mid == Middle(left, right - 1)
    ensures left <= mid < right <= NumEntries(node)
    ensures Key(node, mid) <= hash ==>
              Bounds(node, hash, mid + 1, right)
              && Search(node, hash, left, right) == Search(node, hash, mid + 1, right)
    ensures Key(node, mid) > hash ==>
              mid > 0 && Bounds(node, hash, left, mid)
              && Search(node, hash, left, right) == Search(node, hash, left, mid)
  {
  }

  lemma SearchEnd(node: seq<byte>, hash: nat, left: nat)
    requires Bounds(node, hash, left, left) && NumEntries(node) > 0
    ensures 0 < left <= NumEntries(node) && Search(node, hash, left, left) == left - 1
  {
  }

  /** With sorted entries the search settles on the slot of the hash. */
  lemma {:induction false} SearchSorted(node: seq<byte>, hash: nat, left: nat, right: nat)
    requires Bounds(node, hash, left, right) && NumEntries(node) > 0 && Sorted(node)
    ensures IsSlot(node, hash, Search(node, hash, left, right))
    decreases right - left
  {
    hide Search, Key, NumEntries, Middle;
    if left == right {
      SearchEnd(node, hash, left);
    } else {
      var mid := Middle(left, right - 1);
      SearchStep(node, hash, left, right, mid);
      if Key(node, mid) <= hash {
        SearchSorted(node, hash, mid + 1, right);
      } else {
        SearchSorted(node, hash, left, mid);
      }
    }
  }

  /** The child for a hash: found whenever the header entry is there, sorted or not. */
  function ChildFor(node: seq<byte>, hash: nat): (r: Option<nat>)
    ensures r.Some? <==> NumEntries(node) > 0
  {
    if NumEntries(node) == 0 then None
    else Some(Child(node, Search(node, hash, 0, NumEntries(node))))
  }

  /** In a sorted node, the child is that of the last entry whose key is at most the hash. */
  lemma ChildForSlot(node: seq<byte>, hash: nat) returns (slot: nat)
    requires NumEntries(node) > 0 && Sorted(node)
    ensures IsSlot(node, hash, slot) && ChildFor(node, hash) == Some(Child(node, slot))
  {
    slot := Search(node, hash, 0, NumEntries(node));
    SearchSorted(node, hash, 0, NumEntries(node));
  }

  lemma ChildForUnfolds(node: seq<byte>, hash: nat)
    ensures NumEntries(node) == 0 ==> ChildFor(node, hash) == None
    ensures Bounds(node, hash, 0, NumEntries(node))
    ensures NumEntries(node) > 0 ==> ChildFor(node, hash) == Some(Child(node, Search(node, hash, 0, NumEntries(node))))
  {
  }

  /** lookup_block_by_hash, with `right` the last candidate. */
  method LookupBlockByHash(node: seq<byte>, hash: nat) returns (r: Option<nat>)
    ensures r == ChildFor(node, hash)
  {
    hide *;
    ChildForUnfolds(node, hash);
    if NumEntries(node) == 0 {
      return None;
    }
    var left: nat := 0;
    var right: nat := NumEntries(node) - 1;
    while left <= right
      invariant left <= right + 1 && Bounds(node, hash, left, right + 1)
      invariant Search(node, hash, left, right + 1) == Search(node, hash, 0, NumEntries(node))
      decreases right + 1 - left
    {
      var mid := Middle(left, right);
      SearchStep(node, hash, left, right + 1, mid);
      var midHash := Key(node, mid);
      if midHash <= hash {
        left := mid + 1;
      } else {
        right := mid - 1;
      }
    }
    SearchEnd(node, hash, left);
    var index := left - 1;
    r := Some(Child(node, index));
  }

  // ---------------------------------------------------------------------
  // The tree

  /** A directory: its blocks by position in the file, and the hash of names. */
  datatype Directory = Directory(read: nat -> Result<seq<byte>>, hash: seq<byte> -> nat)

  const HASH_LIMIT: nat := 0x1_0000_0000

  function ChildLow(node: seq<byte>, i: nat, low: nat): (h: nat)
    requires i < NumEntries(node)
  {
    if i == 0 then low else Key(node, i)
  }

  function ChildHigh(node: seq<byte>, i: nat, high: nat): (h: nat)
    requires i < NumEntries(node)
  {
    if i + 1 < NumEntries(node) then Key(node, i + 1) else high
  }

  predicate InRange(dir: Directory, es: seq<DirEntry>, low: nat, high: nat) {
    forall i :: 0 <= i < |es| ==> low <= dir.hash(es[i].name) < high
  }

  /** The children of a node cover consecutive hash ranges. */
  ghost predicate GoodNode(dir: Directory, node: seq<byte>, depth: nat, low: nat, high: nat)
    decreases depth, 1
  {
    && NumEntries(node) > 0 && Sorted(node)
    && (forall i :: 0 < i < NumEntries(node) ==> low <= Key(node, i) <= high)
    && forall i :: 0 <= i < NumEntries(node) ==>
         GoodBlock(dir, Child(node, i), depth, ChildLow(node, i, low), ChildHigh(node, i, high))
  }

  /** A block with `depth` levels of internal nodes at and below it, holding hashes in one range. */
  ghost predicate GoodBlock(dir: Directory, block: nat, depth: nat, low: nat, high: nat)
    decreases depth, 0
  {
    && dir.read(block).Ok?
    && var bytes := dir.read(block).value;
       if depth == 0 then
         Entries(bytes, 0).Ok? && InRange(dir, Entries(bytes, 0).value, low, high)
       else
         && |bytes| >= 8 && NodeOf(bytes[8..]).Ok?
         && GoodNode(dir, NodeOf(bytes[8..]).value, depth - 1, low, high)
  }

  /** The entries in the leaves below a node's children from `i` on, left to right. */
  ghost function NodeEntries(dir: Directory, node: seq<byte>, depth: nat, i: nat): (es: seq<DirEntry>)
    requires i <= NumEntries(node)
    decreases depth, 1, NumEntries(node) - i
  {
    if i == NumEntries(node) then []
    else BlockEntries(dir, Child(node, i), depth) + NodeEntries(dir, node, depth, i + 1)
  }

  ghost function BlockEntries(dir: Directory, block: nat, depth: nat): (es: seq<DirEntry>)
    decreases depth, 0
  {
    if dir.read(block).Err? then []
    else
      var bytes := dir.read(block).value;
      if depth == 0 then
        if Entries(bytes, 0).Ok? then Entries(bytes, 0).value else []
      else if |bytes| >= 8 && NodeOf(bytes[8..]).Ok? then
        NodeEntries(dir, NodeOf(bytes[8..]).value, depth - 1, 0)
      else []
  }

  // ---------------------------------------------------------------------
  // Searching

  lemma {:induction false} FindConcat(a: seq<DirEntry>, b: seq<DirEntry>, name: seq<byte>)
    ensures Find(a + b, name) == if Find(a, name).Ok? then Find(a, name) else Find(b, name)
    decreases |a|
  {
    if a == [] {
      assert a + b == b;
    } else if a[0].name != name {
      FindConcat(a[1..], b, name);
      assert (a + b)[1..] == a[1..] + b;
    }
  }

  lemma FindOutOfRange(dir: Directory, es: seq<DirEntry>, name: seq<byte>, low: nat, high: nat)
    requires InRange(dir, es, low, high) && !(low <= dir.hash(name) < high)
    ensures Find(es, name) == Err(NotFound)
  {
  }

  /** Entries below a good block have hashes in its range. */
  lemma {:induction false} BlockInRange(dir: Directory, block: nat, depth: nat, low: nat, high: nat)
    requires GoodBlock(dir, block, depth, low, high)
    ensures InRange(dir, BlockEntries(dir, block, depth), low, high)
    decreases depth, 0, 0
  {
    hide Entries, NodeOf;
    if depth > 0 {
      var node := NodeOf(dir.read(block).value[8..]).value;
      NodeInRange(dir, node, depth - 1, low, high, 0);
    }
  }

  lemma {:induction false} NodeInRange(dir: Directory, node: seq<byte>, depth: nat, low: nat, high: nat, i: nat)
    requires GoodNode(dir, node, depth, low, high) && i <= NumEntries(node)
    ensures InRange(dir, NodeEntries(dir, node, depth, i), low, high)
    decreases depth, 1, NumEntries(node) - i
  {
    hide GoodBlock;
    if i < NumEntries(node) {
      BlockInRange(dir, Child(node, i), depth, ChildLow(node, i, low), ChildHigh(node, i, high));
      NodeInRange(dir, node, depth, low, high, i + 1);
    }
  }

  /** Children after the slot hold only larger hashes. */
  lemma {:induction false} AfterSlot(dir: Directory, node: seq<byte>, depth: nat, low: nat, high: nat,
                                     name: seq<byte>, slot: nat, i: nat)
    requires GoodNode(dir, node, depth, low, high) && IsSlot(node, dir.hash(name), slot)
    requires slot < i <= NumEntries(node)
    ensures Find(NodeEntries(dir, node, depth, i), name) == Err(NotFound)
    decreases NumEntries(node) - i
  {
    hide GoodBlock, BlockEntries, Find, Child, NumEntries, InRange;
    if i < NumEntries(node) {
      AfterSlot(dir, node, depth, low, high, name, slot, i + 1);
      var lo, hi := ChildLow(node, i, low), ChildHigh(node, i, high);
      BlockInRange(dir, Child(node, i), depth, lo, hi);
      FindOutOfRange(dir, BlockEntries(dir, Child(node, i), depth), name, lo, hi);
      FindConcat(BlockEntries(dir, Child(node, i), depth), NodeEntries(dir, node, depth, i + 1), name);
    } else {
      FindNone(name);
    }
  }

  lemma FindNone(name: seq<byte>)
    ensures Find([], name) == Err(NotFound)
  {
  }

  /** A name is found among all entries of a node exactly as in the child at its slot. */
  lemma {:induction false} FindAtSlot(dir: Directory, node: seq<byte>, depth: nat, low: nat, high: nat,
                                      name: seq<byte>, slot: nat, i: nat)
    requires GoodNode(dir, node, depth, low, high) && IsSlot(node, dir.hash(name), slot)
    requires i <= slot
    ensures Find(NodeEntries(dir, node, depth, i), name) == Find(BlockEntries(dir, Child(node, slot), depth), name)
    decreases slot - i
  {
    hide GoodBlock, BlockEntries, Find, Child, NumEntries, InRange;
    FindConcat(BlockEntries(dir, Child(node, i), depth), NodeEntries(dir, node, depth, i + 1), name);
    if i == slot {
      AfterSlot(dir, node, depth, low, high, name, slot, i + 1);
    } else {
      FindAtSlot(dir, node, depth, low, high, name, slot, i + 1);
      var lo, hi := ChildLow(node, i, low), ChildHigh(node, i, high);
      BlockInRange(dir, Child(node, i), depth, lo, hi);
      assert Key(node, i + 1) <= Key(node, slot);
      FindOutOfRange(dir, BlockEntries(dir, Child(node, i), depth), name, lo, hi);
    }
  }

  /** The hash stays within the range of the child it leads to. */
  lemma SlotInRange(node: seq<byte>, hash: nat, slot: nat, low: nat, high: nat)
    requires IsSlot(node, hash, slot) && low <= hash < high
    ensures ChildLow(node, slot, low) <= hash < ChildHigh(node, slot, high)
  {
  }

  /** Descending from a block through `depth` levels of internal nodes. */
  function FindLeaf(dir: Directory, block: nat, depth: nat, hash: nat): (r: Result<seq<byte>>)
    decreases depth
  {
    match dir.read(block)
    case Err(e) => Err(e)
    case Ok(bytes) =>
      if depth == 0 then Ok(bytes)
      else if |bytes| < 8 then Err(Corrupt)
      else match NodeOf(bytes[8..])
        case Err(e) => Err(e)
        case Ok(node) =>
          match ChildFor(node, hash)
          case None => Err(Corrupt)
          case Some(child) => FindLeaf(dir, child, depth - 1, hash)
  }

  /** In a good tree the descent reaches a leaf that answers for the whole subtree. */
  lemma {:induction false} LeafAnswers(dir: Directory, block: nat, depth: nat, low: nat, high: nat, name: seq<byte>)
    requires GoodBlock(dir, block, depth, low, high) && low <= dir.hash(name) < high
    ensures var leaf := FindLeaf(dir, block, depth, dir.hash(name));
            && leaf.Ok? && Entries(leaf.value, 0).Ok?
            && Find(Entries(leaf.value, 0).value, name) == Find(BlockEntries(dir, block, depth), name)
    decreases depth, 0
  {
    hide Entries, NodeOf, ChildFor, Find;
    if depth > 0 {
      var node := NodeOf(dir.read(block).value[8..]).value;
      NodeAnswers(dir, node, depth - 1, low, high, name);
    }
  }

  lemma {:induction false} NodeAnswers(dir: Directory, node: seq<byte>, depth: nat, low: nat, high: nat, name: seq<byte>)
    requires GoodNode(dir, node, depth, low, high) && low <= dir.hash(name) < high
    ensures var child := ChildFor(node, dir.hash(name));
            && child.Some?
            && var leaf := FindLeaf(dir, child.value, depth, dir.hash(name));
            && leaf.Ok? && Entries(leaf.value, 0).Ok?
            && Find(Entries(leaf.value, 0).value, name) == Find(NodeEntries(dir, node, depth, 0), name)
    decreases depth, 1
  {
    hide Entries, Find, GoodBlock, BlockEntries, NodeEntries, FindLeaf;
    var hash := dir.hash(name);
    var slot := ChildForSlot(node, hash);
    FindAtSlot(dir, node, depth, low, high, name, slot, 0);
    SlotInRange(node, hash, slot, low, high);
    LeafAnswers(dir, Child(node, slot), depth, ChildLow(node, slot, low), ChildHigh(node, slot, high), name);
  }

  // ---------------------------------------------------------------------
  // The lookup

  /** Blocks are at least 1024 bytes long. */
  ghost predicate Valid(dir: Directory) {
    forall b :: dir.read(b).Ok? ==> |dir.read(b).value| >= 1024
  }

  /** The scan of a leaf, stopping at the first match or the first bad record. */
  function Scan(block: seq<byte>, offset: nat, name: seq<byte>): (r: Result<DirEntry>)
    decreases |block| - offset
  {
    if offset >= |block| then Err(NotFound)
    else match FromBytes(block[offset..])
      case Err(e) => Err(e)
      case Ok(record) =>
        if record.entry.Some? && record.entry.value.name == name then Ok(record.entry.value)
        else Scan(block, offset + record.size, name)
  }

  lemma {:induction false} ScanFinds(block: seq<byte>, offset: nat, name: seq<byte>)
    requires Entries(block, offset).Ok?
    ensures Scan(block, offset, name) == Find(Entries(block, offset).value, name)
    decreases |block| - offset
  {
    hide FromBytes;
    if offset < |block| {
      var record := FromBytes(block[offset..]).value;
      var rest := Entries(block, offset + record.size).value;
      ScanFinds(block, offset + record.size, name);
      if record.entry.Some? {
        FindConcat([record.entry.value], rest, name);
      } else {
        assert [] + rest == rest;
      }
    }
  }

  /** read_dot_or_dotdot: the two entries at fixed offsets of the root block. */
  function DotOrDotDot(block: seq<byte>, name: seq<byte>): (r: Result<Option<DirEntry>>)
    requires |block| >= 1024
  {
    if name != CURRENT && name != PARENT then Ok(None)
    else
      match FromBytes(block[if name == CURRENT then 0 else 12..])
      case Err(e) => Err(e)
      case Ok(record) =>
        if record.entry.Some? && record.entry.value.name == name then Ok(record.entry) else Err(Corrupt)
  }

  /** find_leaf_node from the root block's bytes. */
  function LeafFor(dir: Directory, root: seq<byte>, name: seq<byte>): (r: Result<seq<byte>>)
    requires |root| >= 1024
  {
    if root[0x1c] != 1 then Err(DirectoryHash(root[0x1c]))
    else match NodeOf(root[0x20..])
      case Err(e) => Err(e)
      case Ok(node) =>
        match ChildFor(node, dir.hash(name))
        case None => Err(Corrupt)
        case Some(child) => FindLeaf(dir, child, root[0x1e], dir.hash(name))
  }

  /** get_dir_entry_via_htree. */
  function Lookup(dir: Directory, name: seq<byte>): (r: Result<DirEntry>)
    requires Valid(dir)
  {
    match dir.read(0)
    case Err(e) => Err(e)
    case Ok(root) =>
      match DotOrDotDot(root, name)
      case Err(e) => Err(e)
      case Ok(Some(entry)) => Ok(entry)
      case Ok(None) =>
        match LeafFor(dir, root, name)
        case Err(e) => Err(e)
        case Ok(leaf) => Scan(leaf, 0, name)
  }

  /** find_leaf_node: one block buffer, refilled level by level. */
  method FindLeafNode(dir: Directory, root: seq<byte>, name: seq<byte>) returns (r: Result<seq<byte>>)
    requires |root| >= 1024 && Valid(dir)
    ensures r == LeafFor(dir, root, name)
  {
    hide ChildFor, NodeOf;
    var hashType := root[0x1c];
    if hashType != 1 {
      return Err(DirectoryHash(hashType));
    }
    var depth: nat := root[0x1e];
    var rootNode := NodeOf(root[0x20..]);
    if rootNode.Err? {
      return Err(rootNode.error);
    }
    var hash := dir.hash(name);
    var first := LookupBlockByHash(rootNode.value, hash);
    if first.None? {
      return Err(Corrupt);
    }
    var child := first.value;
    var block := root;
    var level: nat := 0;
    while level <= depth
      invariant 0 <= level <= depth + 1
      invariant level <= depth ==> FindLeaf(dir, child, depth - level, hash) == LeafFor(dir, root, name)
      invariant level == depth + 1 ==> Ok(block) == LeafFor(dir, root, name)
    {
      var read := dir.read(child);
      if read.Err? {
        return Err(read.error);
      }
      block := read.value;
      if level != depth {
        var inner := NodeOf(block[8..]);
        if inner.Err? {
          return Err(inner.error);
        }
        var next := LookupBlockByHash(inner.value, hash);
        if next.None? {
          return Err(Corrupt);
        }
        child := next.value;
      }
      level := level + 1;
    }
    r := Ok(block);
  }

  method GetDirEntryViaHtree(dir: Directory, name: seq<byte>) returns (r: Result<DirEntry>)
    requires Valid(dir)
    ensures r == Lookup(dir, name)
  {
    hide DotOrDotDot, LeafFor;
    var root := dir.read(0);
    if root.Err? {
      return Err(root.error);
    }
    var dots := DotOrDotDot(root.value, name);
    if dots.Err? {
      return Err(dots.error);
    }
    if dots.value.Some? {
      return Ok(dots.value.value);
    }
    var leaf := FindLeafNode(dir, root.value, name);
    if leaf.Err? {
      return Err(leaf.error);
    }
    var block := leaf.value;
    var offset := 0;
    while offset < |block|
      invariant 0 <= offset
      invariant Scan(block, offset, name) == Scan(block, 0, name)
      decreases |block| - offset
    {
      var record := FromBytes(block[offset..]);
      if record.Err? {
        return Err(record.error);
      }
      offset := offset + record.value.size;
      if record.value.entry.None? {
        continue;
      }
      if record.value.entry.value.name == name {
        return Ok(record.value.entry.value);
      }
    }
    r := Err(NotFound);
  }

  // ---------------------------------------------------------------------
  // The tree against a plain scan

  /** A well-formed directory: dot entries in place, and a good tree below the root node. */
  ghost predicate GoodDirectory(dir: Directory) {
    && Valid(dir) && dir.read(0).Ok?
    && var root := dir.read(0).value;
    && DotOrDotDot(root, CURRENT).Ok? && DotOrDotDot(root, PARENT).Ok?
    && root[0x1c] == 1
    && NodeOf(root[0x20..]).Ok?
    && GoodNode(dir, NodeOf(root[0x20..]).value, root[0x1e], 0, HASH_LIMIT)
    && forall name :: dir.hash(name) < HASH_LIMIT
  }

  /** Every entry of the directory: ".", ".." and those of all leaves. */
  ghost function AllEntries(dir: Directory): (es: seq<DirEntry>)
    requires GoodDirectory(dir)
  {
    var root := dir.read(0).value;
    [DotOrDotDot(root, CURRENT).value.value, DotOrDotDot(root, PARENT).value.value]
    + NodeEntries(dir, NodeOf(root[0x20..]).value, root[0x1e], 0)
  }

  /** Theorem: at any depth, the lookup returns what a scan of all entries finds. */
  lemma LookupIsScan(dir: Directory, name: seq<byte>)
    requires GoodDirectory(dir)
    ensures Lookup(dir, name) == Find(AllEntries(dir), name)
  {
    hide NodeOf, ChildFor, GoodNode, NodeEntries, Scan, Entries, FindLeaf;
    var root := dir.read(0).value;
    var node := NodeOf(root[0x20..]).value;
    var dots := [DotOrDotDot(root, CURRENT).value.value, DotOrDotDot(root, PARENT).value.value];
    FindConcat(dots, NodeEntries(dir, node, root[0x1e], 0), name);
    FindDots(root, name);
    if name != CURRENT && name != PARENT {
      NodeAnswers(dir, node, root[0x1e], 0, HASH_LIMIT, name);
      ScanFinds(LeafFor(dir, root, name).value, 0, name);
    }
  }

  lemma FindDots(root: seq<byte>, name: seq<byte>)
    requires |root| >= 1024 && DotOrDotDot(root, CURRENT).Ok? && DotOrDotDot(root, PARENT).Ok?
    ensures var dots := [DotOrDotDot(root, CURRENT).value.value, DotOrDotDot(root, PARENT).value.value];
            && (name == CURRENT ==> Find(dots, name) == Ok(dots[0]))
            && (name == PARENT ==> Find(dots, name) == Ok(dots[1]))
            && (name != CURRENT && name != PARENT ==> Find(dots, name) == Err(NotFound))
  {
    var dots := [DotOrDotDot(root, CURRENT).value.value, DotOrDotDot(root, PARENT).value.value];
    assert dots[0].name == CURRENT && dots[1].name == PARENT;
    assert CURRENT != PARENT;
    assert dots[1..] == [dots[1]];
  }
}
