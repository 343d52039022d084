/** The bytes of an encoded GalleonFS directory: what is written, and all that is accepted (crates/galleonfs/src/directory.rs). */
module GalleonFormat {
  import opened Bytes
  import opened LittleEndian
  import opened GalleonDirectories
  import opened Wrappers

  /** An entry in place: name length, name, object id and type, numbers with their low byte first. */
  predicate EntryAt(data: seq<byte>, offset: nat, e: Entry) {
    var n := |e.name|;
    && offset + 11 + n <= |data|
    && (data[offset] as int) + 256 * (data[offset + 1] as int) == n
    && data[offset + 2..offset + 2 + n] == e.name
    && LeValue(data[offset + 2 + n..offset + 10 + n]) == e.objectId
    && data[offset + 10 + n] == match e.inodeType
                                case RegularFile => 0
                                case Folder => 1
                                case SymbolicLink => 2
                                case BlockDevice => 3
                                case CharacterDevice => 4
                                case Fifo => 5
                                case Socket => 6
                                case Snapshot => 7
                                case HardLink => 8
  }

  /** Entries one after the other. */
  predicate ListAt(data: seq<byte>, offset: nat, es: seq<Entry>)
    decreases |es|
  {
    es == [] || (EntryAt(data, offset, es[0]) && ListAt(data, offset + 11 + |es[0].name|, es[1..]))
  }

  lemma TwoBytes(data: seq<byte>, offset: nat)
    requires offset + 2 <= |data|
    ensures ReadU16(data, offset) == (data[offset] as int) + 256 * (data[offset + 1] as int)
  {
    var field := data[offset..offset + 2];
    assert field[0] == data[offset] && field[1..] == [data[offset + 1]] && [data[offset + 1]][1..] == [];
    assert LeValue([data[offset + 1]]) == data[offset + 1] + 256 * LeValue([]);
  }

  /** An entry is read exactly where it stands, if its name is a string. */
  lemma DecodesEntry(utf8: seq<byte> -> bool, data: seq<byte>, offset: nat, e: Entry)
    ensures DecodeEntry(utf8, data, offset) == Ok(e) <==> EntryAt(data, offset, e) && utf8(e.name)
  {
    hide LeValue, ReadU16;
    if offset + 2 <= |data| {
      TwoBytes(data, offset);
    }
  }

  /** Names that are strings, all different, and none of them there already. */
  ghost predicate Acceptable(utf8: seq<byte> -> bool, done: seq<Entry>, list: seq<Entry>) {
    && (forall i :: 0 <= i < |list| ==> utf8(list[i].name) && !Has(done, list[i].name))
    && (forall i, j :: 0 <= i < j < |list| ==> list[i].name != list[j].name)
  }

  lemma HasInserted(es: seq<Entry>, e: Entry, name: seq<byte>)
    ensures Has(Inserted(es, e), name) <==> Has(es, name) || e.name == name
  {
    hide Inserted;
    InsertedKeeps(es, e);
    var r := Inserted(es, e);
    if Has(r, name) {
      var i :| 0 <= i < |r| && r[i].name == name;
      assert r[i] in multiset(r);
      assert r[i] == e || r[i] in es;
    }
    if i :| 0 <= i < |es| && es[i].name == name {
      assert es[i] in multiset(es) && es[i] in multiset(r);
      assert es[i] in r;
    }
    if e.name == name {
      assert e in multiset(r);
      assert e in r;
    }
  }

  lemma AcceptableStep(utf8: seq<byte> -> bool, done: seq<Entry>, e: Entry, rest: seq<Entry>)
    ensures Acceptable(utf8, done, [e] + rest) <==>
              utf8(e.name) && !Has(done, e.name) && Acceptable(utf8, Inserted(done, e), rest)
  {
    hide Has, Inserted;
    var list := [e] + rest;
    forall i | 0 <= i < |rest|
      ensures Has(Inserted(done, e), rest[i].name) <==> Has(done, rest[i].name) || e.name == rest[i].name
    {
      HasInserted(done, e, rest[i].name);
    }
    assert forall i :: 0 <= i < |rest| ==> rest[i] == list[i + 1];
    if Acceptable(utf8, done, list) {
      assert list[0] == e;
    }
  }

  /** What is decoded is in the data: acceptable entries, one after the other. */
  lemma {:induction false} DecodedWasThere(
      utf8: seq<byte> -> bool, data: seq<byte>, offset: nat, count: nat, done: seq<Entry>, es: seq<Entry>)
    returns (list: seq<Entry>)
    requires DecodeEntries(utf8, data, offset, count, done) == Ok(es)
    ensures |list| == count && ListAt(data, offset, list) && Acceptable(utf8, done, list)
    ensures multiset(es) == multiset(done) + multiset(list)
    decreases count
  {
    hide DecodeEntry, Inserted, Has, EntryAt, Acceptable;
    if count == 0 {
      list := [];
      NoneAcceptable(utf8, done);
    } else {
      var e := DecodeEntry(utf8, data, offset).value;
      DecodesEntry(utf8, data, offset, e);
      InsertedKeeps(done, e);
      var rest := DecodedWasThere(utf8, data, offset + 11 + |e.name|, count - 1, Inserted(done, e), es);
      list := [e] + rest;
      assert list[1..] == rest;
      AcceptableStep(utf8, done, e, rest);
    }
  }

  lemma NoneAcceptable(utf8: seq<byte> -> bool, done: seq<Entry>)
    ensures Acceptable(utf8, done, [])
  {
  }

  /** And whatever acceptable entries are there are decoded. */
  lemma {:induction false} ThereIsDecoded(
      utf8: seq<byte> -> bool, data: seq<byte>, offset: nat, list: seq<Entry>, done: seq<Entry>)
    requires ListAt(data, offset, list) && Acceptable(utf8, done, list)
    ensures DecodeEntries(utf8, data, offset, |list|, done).Ok?
    ensures multiset(DecodeEntries(utf8, data, offset, |list|, done).value) == multiset(done) + multiset(list)
    decreases |list|
  {
    hide DecodeEntry, Inserted, EntryAt, Has, Acceptable;
    if list != [] {
      var e, rest := list[0], list[1..];
      assert list == [e] + rest;
      DecodesEntry(utf8, data, offset, e);
      AcceptableStep(utf8, done, e, rest);
      InsertedKeeps(done, e);
      ThereIsDecoded(utf8, data, offset + 11 + |e.name|, rest, Inserted(done, e));
    }
  }

  /** Entry count and entries, from the first byte on. */
  ghost predicate Written(utf8: seq<byte> -> bool, data: seq<byte>, list: seq<Entry>) {
    && |data| >= 4 && LeValue(data[..4]) == |list|
    && ListAt(data, 4, list) && Acceptable(utf8, [], list)
  }

  /**
   Theorem: data is decoded if and only if it begins with an entry count and that
   many entries with different names that are strings; the result is those
   entries, in the order of their names.
   */
  lemma DecodeExactly(utf8: seq<byte> -> bool, data: seq<byte>)
    ensures Decode(utf8, data).Ok? <==> exists list :: Written(utf8, data, list)
    ensures forall list :: Written(utf8, data, list) ==>
              Decode(utf8, data).Ok?
              && Sorted(Decode(utf8, data).value) && multiset(Decode(utf8, data).value) == multiset(list)
  {
    hide DecodeEntries, ListAt, Acceptable, LeValue;
    if Decode(utf8, data).Ok? {
      var list := DecodedWasThere(utf8, data, 4, ReadU32(data, 0), [], Decode(utf8, data).value);
      assert data[0..4] == data[..4];
      assert Written(utf8, data, list);
      DecodeSorted(utf8, data, 4, ReadU32(data, 0), [], Decode(utf8, data).value);
    }
    forall list | Written(utf8, data, list)
      ensures Decode(utf8, data).Ok? && multiset(Decode(utf8, data).value) == multiset(list)
    {
      assert data[0..4] == data[..4];
      ThereIsDecoded(utf8, data, 4, list, []);
    }
  }

  lemma {:induction false} EntriesWritten(prefix: seq<byte>, es: seq<Entry>, bytes: seq<byte>)
    requires EncodeEntries(es) == Ok(bytes)
    ensures ListAt(prefix + bytes, |prefix|, es)
    decreases |es|
  {
    hide EntryBytes, DecodeEntry, EntryAt;
    if es != [] {
      var e, rest := es[0], EncodeEntries(es[1..]).value;
      assert prefix + bytes == (prefix + EntryBytes(e)) + rest;
      EntryRoundTrip(name => true, prefix, e, prefix + bytes);
      DecodesEntry(name => true, prefix + bytes, |prefix|, e);
      EntriesWritten(prefix + EntryBytes(e), es[1..], rest);
    }
  }

  /** Theorem: what is written: the low 32 bits of the count, then the entries, each where the one before it ends. */
  lemma EncodeWrites(es: seq<Entry>, data: seq<byte>)
    requires Encode(es) == Ok(data)
    ensures |data| >= 4 && LeValue(data[..4]) == |es| % 0x1_0000_0000 && ListAt(data, 4, es)
  {
    hide LeBytes, LeValue, EncodeEntries, ListAt;
    var count := LeBytes(|es| % 0x1_0000_0000, 4);
    EntriesWritten(count, es, EncodeEntries(es).value);
    assert data[..4] == count;
    Limits();
    LeRoundTrip(|es| % 0x1_0000_0000, 4);
  }
}
