/** Directories of GalleonFS and their encoding (crates/galleonfs/src/directory.rs). */
module GalleonDirectories {
  import opened Bytes
  import opened LittleEndian
  import opened Wrappers
  import opened Numbers

  datatype InodeType =
    | RegularFile | Folder | SymbolicLink | BlockDevice | CharacterDevice | Fifo | Socket | Snapshot | HardLink

  datatype Entry = Entry(name: seq<byte>, objectId: u64, inodeType: InodeType)

  datatype Error = AlreadyExists | NameTooLong | Corruption

  type Result<T> = Fallible<T, Error>

  // ---------------------------------------------------------------------
  // The ordered map of entries

  /** The order of the map's keys: byte by byte. */
  predicate Less(a: seq<byte>, b: seq<byte>) {
    if b == [] then false
    else if a == [] then true
    else if a[0] != b[0] then a[0] < b[0]
    else Less(a[1..], b[1..])
  }

  lemma {:induction false} LessTransitive(a: seq<byte>, b: seq<byte>, c: seq<byte>)
    requires Less(a, b) && Less(b, c)
    ensures Less(a, c)
    decreases |a|
  {
    if a != [] && a[0] == b[0] && b[0] == c[0] {
      LessTransitive(a[1..], b[1..], c[1..]);
    }
  }

  /** A key is less at the first byte where they differ, or where it ends first. */
  lemma {:induction false} LessExactly(a: seq<byte>, b: seq<byte>)
    ensures Less(a, b) <==> exists k :: LessAt(a, b, k)
    decreases |a|
  {
    if a == [] {
      if b != [] {
        assert LessAt(a, b, 0);
      }
    } else if b != [] {
      if a[0] != b[0] {
        assert a[0] < b[0] ==> LessAt(a, b, 0);
        assert forall k :: LessAt(a, b, k) ==> k == 0;
      } else {
        LessExactly(a[1..], b[1..]);
        assert a == [a[0]] + a[1..] && b == [b[0]] + b[1..];
        if k: nat :| LessAt(a[1..], b[1..], k) {
          assert LessAt(a, b, k + 1);
        }
        if k: nat :| LessAt(a, b, k) {
          assert a[..k][0] == b[..k][0] && a[1..][..k - 1] == a[..k][1..] && b[1..][..k - 1] == b[..k][1..];
          assert LessAt(a[1..], b[1..], k - 1);
        }
      }
    }
  }

  predicate LessAt(a: seq<byte>, b: seq<byte>, k: nat) {
    k <= |a| && k < |b| && a[..k] == b[..k] && (k == |a| || a[k] < b[k])
  }

  /** Of two keys exactly one is less, or they are equal. */
  lemma {:induction false} LessTotal(a: seq<byte>, b: seq<byte>)
    ensures Less(a, b) ==> !Less(b, a) && a != b
    ensures !Less(a, b) && !Less(b, a) ==> a == b
    decreases |a|
  {
    if a != [] && b != [] && a[0] == b[0] {
      LessTotal(a[1..], b[1..]);
      assert a == [a[0]] + a[1..] && b == [b[0]] + b[1..];
    }
  }

  /** Entries in key order, each name once. */
  predicate Sorted(es: seq<Entry>) {
    forall i, j :: 0 <= i < j < |es| ==> Less(es[i].name, es[j].name)
  }

  predicate Has(es: seq<Entry>, name: seq<byte>) {
    exists i :: 0 <= i < |es| && es[i].name == name
  }

  /** Insertion at the key's place. */
  function Inserted(es: seq<Entry>, e: Entry): (r: seq<Entry>)
    ensures |r| == |es| + 1
  {
    if es == [] || Less(e.name, es[0].name) then [e] + es else [es[0]] + Inserted(es[1..], e)
  }

  /** add_entry: the entries afterwards. */
  function Added(es: seq<Entry>, e: Entry): (r: Result<seq<Entry>>) {
    if Has(es, e.name) then Err(AlreadyExists) else Ok(Inserted(es, e))
  }

  lemma {:induction false} InsertedKeeps(es: seq<Entry>, e: Entry)
    ensures multiset(Inserted(es, e)) == multiset(es) + multiset{e}
    decreases |es|
  {
    if es != [] && !Less(e.name, es[0].name) {
      InsertedKeeps(es[1..], e);
      assert es == [es[0]] + es[1..];
    }
  }

  lemma {:induction false} InsertedSorted(es: seq<Entry>, e: Entry)
    requires Sorted(es) && !Has(es, e.name)
    ensures Sorted(Inserted(es, e))
    decreases |es|
  {
    var r := Inserted(es, e);
    if es == [] {
    } else if Less(e.name, es[0].name) {
      forall j | 0 < j < |es|
        ensures Less(e.name, es[j].name)
      {
        LessTransitive(e.name, es[0].name, es[j].name);
      }
    } else {
      var rest := Inserted(es[1..], e);
      assert forall i :: 0 <= i < |es| - 1 ==> es[1..][i] == es[i + 1];
      InsertedSorted(es[1..], e);
      LessTotal(e.name, es[0].name);
      InsertedKeeps(es[1..], e);
      forall j | 0 <= j < |rest|
        ensures Less(es[0].name, rest[j].name)
      {
        assert rest[j] in multiset(rest);
        assert rest[j] == e || rest[j] in es[1..];
      }
    }
  }

  /** An entry beyond all others goes to the end. */
  lemma {:induction false} InsertedLast(es: seq<Entry>, e: Entry)
    requires Sorted(es + [e])
    ensures Inserted(es, e) == es + [e] && !Has(es, e.name)
    decreases |es|
  {
    var all := es + [e];
    forall i | 0 <= i < |es|
      ensures es[i].name != e.name && !Less(e.name, es[i].name)
    {
      assert Less(all[i].name, all[|es|].name);
      LessTotal(es[i].name, e.name);
    }
    if es != [] {
      assert all[1..] == es[1..] + [e];
      InsertedLast(es[1..], e);
    }
  }

  // ---------------------------------------------------------------------
  // Encoding

  function Code(t: InodeType): (c: byte) {
    match t
    case RegularFile => 0
    case Folder => 1
    case SymbolicLink => 2
    case BlockDevice => 3
    case CharacterDevice => 4
    case Fifo => 5
    case Socket => 6
    case Snapshot => 7
    case HardLink => 8
  }

  function TypeOf(c: byte): (t: Option<InodeType>)
    ensures t.Some? ==> Code(t.value) == c
  {
    match c
    case 0 => Some(RegularFile)
    case 1 => Some(Folder)
    case 2 => Some(SymbolicLink)
    case 3 => Some(BlockDevice)
    case 4 => Some(CharacterDevice)
    case 5 => Some(Fifo)
    case 6 => Some(Socket)
    case 7 => Some(Snapshot)
    case 8 => Some(HardLink)
    case _ => None
  }

  const NAME_LIMIT: nat := 0x1_0000

  function EntryBytes(e: Entry): (s: seq<byte>)
    ensures |s| == 11 + |e.name|
  {
    LeBytes(|e.name|, 2) + e.name + LeBytes(e.objectId, 8) + [Code(e.inodeType)]
  }

  function EncodeEntries(es: seq<Entry>): (r: Result<seq<byte>>) {
    if es == [] then Ok([])
    else if |es[0].name| >= NAME_LIMIT then Err(NameTooLong)
    else match EncodeEntries(es[1..])
      case Err(e) => Err(e)
      case Ok(rest) => Ok(EntryBytes(es[0]) + rest)
  }

  /** Directory::serialize; the count keeps its low 32 bits. */
  function Encode(es: seq<Entry>): (r: Result<seq<byte>>) {
    match EncodeEntries(es)
    case Err(e) => Err(e)
    case Ok(bytes) => Ok(LeBytes(|es| % 0x1_0000_0000, 4) + bytes)
  }

  // ---------------------------------------------------------------------
  // Decoding; `utf8` tells which byte strings are strings

  function DecodeEntry(utf8: seq<byte> -> bool, data: seq<byte>, offset: nat): (r: Result<Entry>)
    ensures r.Ok? ==> offset + 11 + |r.value.name| <= |data|
  {
    if offset + 2 > |data| then Err(Corruption)
    else
      var size := ReadU16(data, offset);
      if offset + 2 + size + 8 + 1 > |data| then Err(Corruption)
      else
        var name := data[offset + 2..offset + 2 + size];
        if !utf8(name) then Err(Corruption)
        else
          var objectId := ReadU64(data, offset + 2 + size);
          match TypeOf(data[offset + 10 + size])
          case None => Err(Corruption)
          case Some(t) => Ok(Entry(name, objectId, t))
  }

  function DecodeEntries(utf8: seq<byte> -> bool, data: seq<byte>, offset: nat, count: nat, done: seq<Entry>)
    : (r: Result<seq<Entry>>)
    ensures r.Ok? ==> |r.value| == |done| + count
    decreases count
  {
    if count == 0 then Ok(done)
    else match DecodeEntry(utf8, data, offset)
      case Err(e) => Err(e)
      case Ok(entry) => match Added(done, entry)
        case Err(e) => Err(e)
        case Ok(next) => DecodeEntries(utf8, data, offset + 11 + |entry.name|, count - 1, next)
  }

  /** Directory::deserialize. */
  function Decode(utf8: seq<byte> -> bool, data: seq<byte>): (r: Result<seq<Entry>>) {
    if |data| < 4 then Err(Corruption)
    else DecodeEntries(utf8, data, 4, ReadU32(data, 0), [])
  }

  // ---------------------------------------------------------------------
  // Theorems

  /** Serialising fails exactly when some name is too long for its length field. */
  lemma {:induction false} EncodeFails(es: seq<Entry>)
    ensures EncodeEntries(es).Err? <==> exists i :: 0 <= i < |es| && |es[i].name| > 65535
    decreases |es|
  {
    hide EntryBytes;
    if es != [] {
      EncodeFails(es[1..]);
      assert forall i :: 0 <= i < |es| - 1 ==> es[1..][i] == es[i + 1];
      if i :| 0 <= i < |es| && |es[i].name| > 65535 {
        if i > 0 {
          assert |es[1..][i - 1].name| > 65535;
        }
      }
    }
  }

  /** Whatever is decoded is an ordered directory. */
  lemma {:induction false} DecodeSorted(
      utf8: seq<byte> -> bool, data: seq<byte>, offset: nat, count: nat, done: seq<Entry>, es: seq<Entry>)
    requires Sorted(done) && DecodeEntries(utf8, data, offset, count, done) == Ok(es)
    ensures Sorted(es)
    decreases count
  {
    hide DecodeEntry, Inserted, Sorted, Has;
    if count > 0 {
      var entry := DecodeEntry(utf8, data, offset).value;
      InsertedSorted(done, entry);
      DecodeSorted(utf8, data, offset + 11 + |entry.name|, count - 1, Inserted(done, entry), es);
    }
  }

  lemma EntryRoundTrip(utf8: seq<byte> -> bool, prefix: seq<byte>, e: Entry, data: seq<byte>)
    requires |e.name| < NAME_LIMIT && utf8(e.name)
    requires prefix + EntryBytes(e) <= data
    ensures DecodeEntry(utf8, data, |prefix|) == Ok(e)
  {
    hide LeBytes, ReadU16, ReadU64;
    var s1 := prefix + LeBytes(|e.name|, 2);
    var s2 := s1 + e.name;
    var s3 := s2 + LeBytes(e.objectId, 8);
    assert prefix + EntryBytes(e) == s3 + [Code(e.inodeType)];
    FieldBytes(data, s3, [Code(e.inodeType)]);
    assert data[|s3|..|s3| + 1][0] == data[|s3|];
    Field64(data, s2, e.objectId);
    FieldBytes(data, s1, e.name);
    Field16(data, prefix, |e.name|);
  }

  lemma {:induction false} EntriesRoundTrip(
      utf8: seq<byte> -> bool, prefix: seq<byte>, es: seq<Entry>, bytes: seq<byte>, done: seq<Entry>)
    requires Sorted(done + es) && (forall i :: 0 <= i < |es| ==> utf8(es[i].name))
    requires EncodeEntries(es) == Ok(bytes)
    ensures DecodeEntries(utf8, prefix + bytes, |prefix|, |es|, done) == Ok(done + es)
    decreases |es|
  {
    hide EntryBytes, DecodeEntry, Inserted, Has, Less;
    if es == [] {
      assert done + [] == done;
    } else {
      var e, rest := es[0], EncodeEntries(es[1..]).value;
      var data, next := prefix + bytes, done + [e];
      assert data == (prefix + EntryBytes(e)) + rest;
      EntryRoundTrip(utf8, prefix, e, data);
      assert next + es[1..] == done + es;
      SortedPrefix(next, es[1..]);
      InsertedLast(done, e);
      EntriesRoundTrip(utf8, prefix + EntryBytes(e), es[1..], rest, next);
    }
  }

  lemma SortedPrefix(a: seq<Entry>, b: seq<Entry>)
    requires Sorted(a + b)
    ensures Sorted(a)
  {
    forall i, j | 0 <= i < j < |a|
      ensures Less(a[i].name, a[j].name)
    {
      assert Less((a + b)[i].name, (a + b)[j].name);
    }
  }

  /** A serialised directory comes back as it was, exactly when its entry count fits the 32-bit field. */
  lemma DirectoryRoundTrip(utf8: seq<byte> -> bool, es: seq<Entry>, data: seq<byte>)
    requires Sorted(es) && (forall i :: 0 <= i < |es| ==> utf8(es[i].name))
    requires Encode(es) == Ok(data)
    ensures Decode(utf8, data) == Ok(es) <==> |es| < 0x1_0000_0000
  {
    hide LeBytes, ReadU32, EncodeEntries, DecodeEntries, Sorted;
    var bytes := EncodeEntries(es).value;
    var count := LeBytes(|es| % 0x1_0000_0000, 4);
    assert [] + count == count;
    Field32(data, [], |es| % 0x1_0000_0000);
    if |es| < 0x1_0000_0000 {
      assert [] + es == es;
      EntriesRoundTrip(utf8, count, es, bytes, []);
    }
  }

  // ---------------------------------------------------------------------
  // The directory

  class Directory {
    var entries: seq<Entry>

    ghost predicate Valid()
      reads this
    {
      Sorted(entries)
    }

    constructor ()
      ensures Valid() && entries == []
    {
      entries := [];
    }

    method AddEntry(e: Entry) returns (r: Result<()>)
      requires Valid()
      modifies this
      ensures Valid()
      ensures r.Err? <==> Has(old(entries), e.name)
      ensures r.Err? ==> r.error == AlreadyExists && entries == old(entries)
      ensures r.Ok? ==> entries == Inserted(old(entries), e)
      ensures r.Ok? ==> multiset(entries) == multiset(old(entries)) + multiset{e}
    {
      if Has(entries, e.name) {
        return Err(AlreadyExists);
      }
      InsertedSorted(entries, e);
      InsertedKeeps(entries, e);
      entries := Inserted(entries, e);
      return Ok(());
    }

    method Serialize() returns (r: Result<seq<byte>>)
      ensures r == Encode(entries)
    {
      hide EntryBytes, LeBytes;
      var count := LeBytes(|entries| % 0x1_0000_0000, 4);
      var data := [];
      assert entries[0..] == entries;
      AppendNone(EncodeEntries(entries));
      for i := 0 to |entries|
        invariant EncodeEntries(entries) == Appended(data, EncodeEntries(entries[i..]))
      {
        assert entries[i..][1..] == entries[i + 1..];
        if |entries[i].name| >= NAME_LIMIT {
          return Err(NameTooLong);
        }
        AppendMore(data, EntryBytes(entries[i]), EncodeEntries(entries[i + 1..]));
        data := data + EntryBytes(entries[i]);
      }
      assert entries[|entries|..] == [];
      assert data + [] == data;
      r := Ok(count + data);
    }

    static method Deserialize(utf8: seq<byte> -> bool, data: seq<byte>) returns (r: Result<Directory>)
      ensures r.Ok? ==> fresh(r.value) && r.value.Valid() && Decode(utf8, data) == Ok(r.value.entries)
      ensures r.Err? ==> Decode(utf8, data) == Err(r.error)
    {
      hide DecodeEntry, Inserted, Sorted, ReadU32;
      if |data| < 4 {
        return Err(Corruption);
      }
      var entryCount := ReadU32(data, 0);
      var offset: nat := 4;
      var directory := new Directory();
      for i := 0 to entryCount
        invariant fresh(directory) && directory.Valid()
        invariant DecodeEntries(utf8, data, offset, entryCount - i, directory.entries) == Decode(utf8, data)
      {
        var decoded := DecodeEntry(utf8, data, offset);
        match decoded {
          case Err(e) =>
            return Err(e);
          case Ok(entry) =>
            var added := directory.AddEntry(entry);
            if added.Err? {
              return Err(added.error);
            }
            offset := offset + 11 + |entry.name|;
        }
      }
      return Ok(directory);
    }
  }

  function Appended(before: seq<byte>, r: Result<seq<byte>>): (o: Result<seq<byte>>) {
    match r
    case Err(e) => Err(e)
    case Ok(rest) => Ok(before + rest)
  }

  lemma AppendNone(r: Result<seq<byte>>)
    ensures Appended([], r) == r
  {
    if r.Ok? {
      assert [] + r.value == r.value;
    }
  }

  lemma AppendMore(before: seq<byte>, bytes: seq<byte>, r: Result<seq<byte>>)
    ensures Appended(before + bytes, r) == Appended(before, Appended(bytes, r))
  {
    if r.Ok? {
      assert before + bytes + r.value == before + (bytes + r.value);
    }
  }
}
