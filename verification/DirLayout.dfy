/** The on-disk layout of directory blocks, as the inverse of reading them (ext4-view-rs/src/dir_entry.rs and dir_htree.rs). */
module DirectoryLayout {
  import opened Bytes
  import opened LittleEndian
  import opened DirectoryHtree
  import opened Wrappers
  import opened Numbers

  // ---------------------------------------------------------------------
  // Leaf blocks

  /** A record of a leaf block: an entry, or one that is not in use, with the bytes after its fixed part. */
  datatype Slot = Used(entry: DirEntry, slack: seq<byte>) | Unused(nameLength: byte, kind: byte, rest: seq<byte>)

  function SlotSize(s: Slot): (n: nat)
    ensures n >= 8
  {
    match s
    case Used(entry, slack) => 8 + |entry.name| + |slack|
    case Unused(_, _, rest) => 8 + |rest|
  }

  /** What fits the fields of a record. */
  predicate Fitting(s: Slot) {
    && SlotSize(s) < 0x1_0000
    && (s.Used? ==> 0 < s.entry.inode < 0x1_0000_0000 && IsName(s.entry.name) && 1 <= s.entry.fileType <= 7)
  }

  /** Inode, record length, name length, file type, name. */
  function SlotBytes(s: Slot): (b: seq<byte>)
    requires Fitting(s)
    ensures |b| == SlotSize(s)
  {
    match s
    case Used(entry, slack) =>
      LeBytes(entry.inode, 4) + LeBytes(SlotSize(s), 2) + [|entry.name|] + [entry.fileType] + entry.name + slack
    case Unused(nameLength, kind, rest) =>
      LeBytes(0, 4) + LeBytes(SlotSize(s), 2) + [nameLength] + [kind] + rest
  }

  lemma FixedPart(data: seq<byte>, inode: u32, size: u16, a: byte, b: byte)
    requires LeBytes(inode, 4) + LeBytes(size, 2) + [a] + [b] <= data
    ensures |data| >= 8 && ReadLe(data, 0, 4) == inode && ReadLe(data, 4, 2) == size && data[6] == a && data[7] == b
  {
    hide LeBytes, LeValue;
    var s1 := LeBytes(inode, 4);
    var s2 := s1 + LeBytes(size, 2);
    var s3 := s2 + [a];
    FieldBytes(data, s3, [b]);
    FieldBytes(data, s2, [a]);
    assert data[6..7][0] == data[6] && data[7..8][0] == data[7];
    Field16(data, s1, size);
    assert [] + s1 == s1;
    Field32(data, [], inode);
  }

  /** Reading a record back, whatever follows it. */
  lemma SlotRoundTrip(s: Slot, data: seq<byte>)
    requires Fitting(s) && SlotBytes(s) <= data
    ensures FromBytes(data) == Ok(Record(if s.Used? then Some(s.entry) else None, SlotSize(s)))
  {
    hide LeBytes, LeValue;
    match s {
      case Used(entry, slack) =>
        var fixed := LeBytes(entry.inode, 4) + LeBytes(SlotSize(s), 2) + [|entry.name|] + [entry.fileType];
        FieldBytes(data, fixed + entry.name, slack);
        FieldBytes(data, fixed, entry.name);
        FixedPart(data, entry.inode, SlotSize(s), |entry.name|, entry.fileType);
      case Unused(nameLength, kind, rest) =>
        var fixed := LeBytes(0, 4) + LeBytes(SlotSize(s), 2) + [nameLength] + [kind];
        FieldBytes(data, fixed, rest);
        FixedPart(data, 0, SlotSize(s), nameLength, kind);
    }
  }

  /** A record at the start of `data`: its fixed part, of the given length, with an entry or none. */
  predicate Begins(data: seq<byte>, r: Record) {
    && |data| >= 8 && 8 <= r.size < 0x1_0000 && LeBytes(r.size, 2) == data[4..6]
    && match r.entry
       case None => data[..4] == [0, 0, 0, 0]
       case Some(e) =>
         && 0 < e.inode < 0x1_0000_0000 && data[..4] == LeBytes(e.inode, 4)
         && IsName(e.name) && data[6] == |e.name| && 8 + |e.name| <= |data| && data[8..8 + |e.name|] == e.name
         && 1 <= e.fileType <= 7 && data[7] == e.fileType
  }

  /** Exactly what is read as a record: everything that begins like one, and nothing else. */
  lemma ReadsExactly(data: seq<byte>, r: Record)
    ensures FromBytes(data) == Ok(r) <==> Begins(data, r)
  {
    hide LeBytes, LeValue;
    if |data| >= 8 {
      Limits();
      FieldOf(data, 0, 4);
      FieldOf(data, 4, 2);
      NumberOf(data[..4], if r.entry.Some? then r.entry.value.inode else 0, 4);
      NumberOf(data[4..6], r.size, 2);
      ZeroBytes();
      assert data[0..4] == data[..4];
    }
  }

  lemma FieldOf(data: seq<byte>, offset: nat, width: nat)
    requires offset + width <= |data|
    ensures LeBytes(ReadLe(data, offset, width), width) == data[offset..offset + width]
    ensures ReadLe(data, offset, width) < Limit(width)
  {
    LeReadBack(data[offset..offset + width]);
    LeBounded(data[offset..offset + width]);
  }

  lemma NumberOf(field: seq<byte>, n: nat, width: nat)
    requires |field| == width
    ensures n < Limit(width) ==> (LeBytes(n, width) == field <==> LeValue(field) == n)
  {
    LeReadBack(field);
    if n < Limit(width) {
      LeRoundTrip(n, width);
    }
  }

  lemma ZeroBytes()
    ensures LeBytes(0, 4) == [0, 0, 0, 0]
  {
    assert LeBytes(0, 1) == [0];
    assert LeBytes(0, 2) == [0, 0];
    assert LeBytes(0, 3) == [0, 0, 0];
  }

  predicate AllFitting(slots: seq<Slot>) {
    forall i :: 0 <= i < |slots| ==> Fitting(slots[i])
  }

  function LeafBytes(slots: seq<Slot>): (b: seq<byte>)
    requires AllFitting(slots)
  {
    if slots == [] then [] else SlotBytes(slots[0]) + LeafBytes(slots[1..])
  }

  function UsedEntries(slots: seq<Slot>): (es: seq<DirEntry>) {
    if slots == [] then []
    else (if slots[0].Used? then [slots[0].entry] else []) + UsedEntries(slots[1..])
  }

  lemma EntriesStep(block: seq<byte>, offset: nat, record: Record, rest: seq<DirEntry>)
    requires offset < |block| && FromBytes(block[offset..]) == Ok(record)
    requires Entries(block, offset + record.size) == Ok(rest)
    ensures Entries(block, offset) == Ok((if record.entry.Some? then [record.entry.value] else []) + rest)
  {
    hide FromBytes;
  }

  /** Any leaf block that fits its fields is read as exactly its entries in use, in order. */
  lemma {:induction false} LeafRoundTrip(prefix: seq<byte>, slots: seq<Slot>)
    requires AllFitting(slots)
    ensures Entries(prefix + LeafBytes(slots), |prefix|) == Ok(UsedEntries(slots))
    decreases |slots|
  {
    hide SlotBytes, FromBytes, Fitting, SlotSize;
    var block := prefix + LeafBytes(slots);
    if slots != [] {
      hide Entries;
      var first := SlotBytes(slots[0]);
      assert block == (prefix + first) + LeafBytes(slots[1..]);
      assert block[|prefix|..] == first + LeafBytes(slots[1..]);
      SlotRoundTrip(slots[0], block[|prefix|..]);
      LeafRoundTrip(prefix + first, slots[1..]);
      var record := FromBytes(block[|prefix|..]).value;
      EntriesStep(block, |prefix|, record, UsedEntries(slots[1..]));
    }
  }

  // ---------------------------------------------------------------------
  // Internal nodes

  datatype Pointer = Pointer(hash: u32, child: u32)

  function PointerBytes(pointers: seq<Pointer>): (b: seq<byte>)
    ensures |b| == 8 * |pointers|
  {
    if pointers == [] then []
    else
      var last := pointers[|pointers| - 1];
      PointerBytes(pointers[..|pointers| - 1]) + LeBytes(last.hash, 4) + LeBytes(last.child, 4)
  }

  /** A node: limit, count and the first child, then hash and child of every other entry. */
  function NodeBytes(limit: u16, first: u32, pointers: seq<Pointer>): (b: seq<byte>)
    requires |pointers| + 1 < 0x1_0000
    ensures |b| == 8 * (|pointers| + 1)
  {
    LeBytes(limit, 2) + LeBytes(|pointers| + 1, 2) + LeBytes(first, 4) + PointerBytes(pointers)
  }

  lemma {:induction false} PointerAt(data: seq<byte>, prefix: seq<byte>, pointers: seq<Pointer>, i: nat)
    requires prefix + PointerBytes(pointers) <= data && i < |pointers|
    ensures |prefix| + 8 * i + 8 <= |data|
    ensures ReadLe(data, |prefix| + 8 * i, 4) == pointers[i].hash
    ensures ReadLe(data, |prefix| + 8 * i + 4, 4) == pointers[i].child
    decreases |pointers|
  {
    hide LeBytes, LeValue;
    var n := |pointers| - 1;
    var before, last := PointerBytes(pointers[..n]), pointers[n];
    var s1 := prefix + before;
    var s2 := s1 + LeBytes(last.hash, 4);
    assert prefix + PointerBytes(pointers) == s2 + LeBytes(last.child, 4);
    Field32(data, s2, last.child);
    Field32(data, s1, last.hash);
    if i < n {
      PointerAt(data, prefix, pointers[..n], i);
    }
  }

  /** Any node is read back: its entry count, its keys, the first being zero, and its children. */
  lemma NodeRoundTrip(limit: u16, first: u32, pointers: seq<Pointer>, data: seq<byte>, i: nat)
    requires |pointers| + 1 < 0x1_0000 && NodeBytes(limit, first, pointers) <= data && i <= |pointers|
    ensures NodeOf(data).Ok? && NumEntries(NodeOf(data).value) == |pointers| + 1
    ensures Key(NodeOf(data).value, i) == if i == 0 then 0 else pointers[i - 1].hash
    ensures Child(NodeOf(data).value, i) == if i == 0 then first else pointers[i - 1].child
  {
    hide LeBytes, LeValue, PointerBytes;
    var node := NodeBytes(limit, first, pointers);
    var s1 := LeBytes(limit, 2);
    var s2 := s1 + LeBytes(|pointers| + 1, 2);
    var s3 := s2 + LeBytes(first, 4);
    FieldBytes(data, s3, PointerBytes(pointers));
    Field32(data, s2, first);
    Field16(data, s1, |pointers| + 1);
    assert ReadLe(data, 2, 2) == |pointers| + 1;
    assert data[..|node|] == node;
    assert NodeOf(data) == Ok(node);
    FieldBytes(node, s3, PointerBytes(pointers));
    Field32(node, s2, first);
    if i > 0 {
      PointerAt(node, s3, pointers, i - 1);
    }
  }
}
