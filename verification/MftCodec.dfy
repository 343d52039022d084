/** The encoder and decoder loops for file records (crates/galleon2/src/mft.rs). */
module MftCodec {
  import opened Bytes
  import opened Sequences
  import opened LittleEndian
  import opened RunLists
  import opened MftRecords
  import opened Numbers

  // ---------------------------------------------------------------------
  // Writing

  /** copy_from_slice at an offset of a buffer. */
  method Put(buf: array<byte>, offset: nat, bytes: seq<byte>)
    requires offset + |bytes| <= buf.Length
    modifies buf
    ensures buf[..] == Patched(old(buf[..]), offset, bytes)
  {
    forall i | 0 <= i < |bytes| {
      buf[offset + i] := bytes[i];
    }
  }

  /** Whether a zeroed buffer has `written` at its start. */
  ghost predicate Holds(buf: seq<byte>, written: seq<byte>) {
    |written| <= |buf| && buf == written + Zeros(|buf| - |written|)
  }

  lemma HoldsNext(buf: seq<byte>, written: seq<byte>, bytes: seq<byte>)
    requires Holds(buf, written) && |written| + |bytes| <= |buf|
    ensures Holds(Patched(buf, |written|, bytes), written + bytes)
  {
  }

  /** Writing the next field; the offset moves past it. */
  method PutNext(buf: array<byte>, offset: nat, bytes: seq<byte>, ghost written: seq<byte>) returns (next: nat)
    requires Holds(buf[..], written) && offset == |written| && offset + |bytes| <= buf.Length
    modifies buf
    ensures Holds(buf[..], written + bytes) && next == |written + bytes|
  {
    hide Patched, Holds;
    HoldsNext(buf[..], written, bytes);
    Put(buf, offset, bytes);
    next := offset + |bytes|;
  }

  method WriteHeader(h: RecordHeader, data: array<byte>)
    requires data.Length == RECORD_SIZE && data[..] == Zeros(RECORD_SIZE)
    modifies data
    ensures data[..] == HeaderBytes(h) + Zeros(RECORD_SIZE - 42)
  {
    hide LeBytes, Zeros;
    assert Holds(data[..], []) by {
      assert [] + Zeros(RECORD_SIZE) == Zeros(RECORD_SIZE);
    }
    WriteFields(h, data);
  }

  method WriteFields(h: RecordHeader, data: array<byte>)
    requires data.Length == RECORD_SIZE && Holds(data[..], [])
    modifies data
    ensures Holds(data[..], HeaderBytes(h))
  {
    hide LeBytes, Holds;
    var offset := PutNext(data, 0, h.signature, []);
    ghost var s := h.signature;
    assert [] + s == s;
    offset := PutNext(data, offset, LeBytes(h.updateSequenceOffset, 2), s);
    s := s + LeBytes(h.updateSequenceOffset, 2);
    offset := PutNext(data, offset, LeBytes(h.updateSequenceSize, 2), s);
    s := s + LeBytes(h.updateSequenceSize, 2);
    offset := PutNext(data, offset, LeBytes(h.logSequenceNumber, 8), s);
    s := s + LeBytes(h.logSequenceNumber, 8);
    offset := PutNext(data, offset, LeBytes(h.sequenceNumber, 2), s);
    s := s + LeBytes(h.sequenceNumber, 2);
    offset := PutNext(data, offset, LeBytes(h.hardLinkCount, 2), s);
    s := s + LeBytes(h.hardLinkCount, 2);
    offset := PutNext(data, offset, LeBytes(h.firstAttribute, 2), s);
    s := s + LeBytes(h.firstAttribute, 2);
    offset := PutNext(data, offset, LeBytes(h.flags, 2), s);
    s := s + LeBytes(h.flags, 2);
    offset := PutNext(data, offset, LeBytes(h.bytesInUse, 4), s);
    s := s + LeBytes(h.bytesInUse, 4);
    offset := PutNext(data, offset, LeBytes(h.bytesAllocated, 4), s);
    s := s + LeBytes(h.bytesAllocated, 4);
    offset := PutNext(data, offset, LeBytes(h.baseRecord, 8), s);
    s := s + LeBytes(h.baseRecord, 8);
    offset := PutNext(data, offset, LeBytes(h.nextAttributeId, 2), s);
    s := s + LeBytes(h.nextAttributeId, 2);
    assert s == HeaderBytes(h);
  }

  /** The run list of a non-resident attribute. */
  method SerializeRuns(runs: seq<ClusterRun>) returns (buf: seq<byte>)
    ensures buf == RunBytes(runs)
  {
    buf := [];
    for i := 0 to |runs|
      invariant buf == RunBytes(runs[..i])
    {
      assert runs[..i + 1][..i] == runs[..i];
      buf := buf + LeBytes(runs[i].count, 8) + LeBytes(runs[i].start, 8);
    }
    assert runs[..|runs|] == runs;
  }

  /** Attribute::serialize. */
  method SerializeAttribute(a: Attribute) returns (buf: seq<byte>)
    ensures buf == EncodeAttribute(a)
  {
    hide LeBytes, RunBytes, AttributeHeaderBytes;
    buf := AttributeHeaderBytes(a.header);
    match a.data {
      case Resident(content) =>
        buf := buf + ResidentBytes(content);
      case NonResident(runs, allocatedSize, realSize, initializedSize) =>
        var runBytes := SerializeRuns(runs);
        buf := buf + (LeBytes(0, 8) + LeBytes(0, 8) + LeBytes(40, 2) + LeBytes(0, 2) + LeBytes(0, 4)
                      + LeBytes(allocatedSize, 8) + LeBytes(realSize, 8) + LeBytes(initializedSize, 8)
                      + runBytes + [0]);
    }
    assert buf == Unpadded(a);
    buf := PadToEight(buf);
  }

  method PadToEight(s: seq<byte>) returns (buf: seq<byte>)
    ensures buf == s + Zeros(Padding(|s|))
  {
    buf := s;
    ghost var k: nat := 0;
    assert s + Zeros(0) == s;
    while |buf| % 8 != 0
      invariant k <= Padding(|s|) && buf == s + Zeros(k)
      decreases Padding(|s|) - k
    {
      ZerosSnoc(k);
      assert s + Zeros(k) + [0] == s + (Zeros(k) + [0]);
      buf := buf + [0];
      k := k + 1;
    }
  }

  // ---------------------------------------------------------------------
  // Records

  class MftRecord {
    var header: RecordHeader
    var attributes: seq<Attribute>
    const number: u64

    function Value(): (r: Record)
      reads this
    {
      Record(header, attributes, number)
    }

    constructor (recordNumber: u64)
      ensures Built(Value())
      ensures attributes == [] && number == recordNumber
      ensures header == RecordHeader(SIGNATURE, 48, 3, 0, 1, 1, 56, 0, 56, RECORD_SIZE, recordNumber, 0)
    {
      header := RecordHeader(SIGNATURE, 48, 3, 0, 1, 1, 56, 0, 56, RECORD_SIZE, recordNumber, 0);
      attributes := [];
      number := recordNumber;
    }

    /** A built record stays one when a constructed attribute is added. */
    method AddAttribute(a: Attribute)
      modifies this
      ensures attributes == old(attributes) + [a]
      ensures header == old(header).(
                nextAttributeId := (old(header.nextAttributeId) + 1) % 0x1_0000,
                bytesInUse := Wrap32(old(header.firstAttribute) + Lengths(attributes) + 4))
      ensures old(Built(Value())) && Made(a) ==> Built(Value())
    {
      attributes := attributes + [a];
      header := header.(nextAttributeId := (header.nextAttributeId + 1) % 0x1_0000);
      UpdateBytesInUse();
    }

    method UpdateBytesInUse()
      modifies this`header
      ensures header == old(header).(
                bytesInUse := Wrap32(old(header.firstAttribute) + Lengths(attributes) + 4))
    {
      hide Wrap32;
      var total := Wrap32(header.firstAttribute);
      for i := 0 to |attributes|
        invariant header == old(header)
        invariant total == Wrap32(header.firstAttribute + Lengths(attributes[..i]))
      {
        assert attributes[..i + 1][..i] == attributes[..i];
        WrapAdd(header.firstAttribute + Lengths(attributes[..i]), attributes[i].header.length);
        total := Wrap32(total + attributes[i].header.length);
      }
      assert attributes[..|attributes|] == attributes;
      WrapAdd(header.firstAttribute + Lengths(attributes), 4);
      total := Wrap32(total + 4);
      header := header.(bytesInUse := total);
    }

    /** serialize: the 1024 bytes, or a panic where the attributes do not fit. */
    method Serialize() returns (r: Outcome<seq<byte>>)
      ensures r == Encode(Value())
    {
      hide HeaderBytes, EncodeAttribute, Patched, LeBytes, Zeros;
      var data := new byte[RECORD_SIZE](i => 0);
      assert data[..] == Zeros(RECORD_SIZE) by { AllZero(data[..]); }
      WriteHeader(header, data);
      var offset: nat := header.firstAttribute;
      var i := 0;
      assert attributes[0..] == attributes;
      while i < |attributes|
        invariant 0 <= i <= |attributes|
        invariant PutAttributes(data[..], offset, attributes[i..]) == Encode(Value())
      {
        assert attributes[i..][1..] == attributes[i + 1..];
        var bytes := SerializeAttribute(attributes[i]);
        if offset + |bytes| > data.Length {
          return Panic;
        }
        Put(data, offset, bytes);
        offset := offset + |bytes|;
        i := i + 1;
      }
      if offset + 4 > data.Length {
        return Panic;
      }
      Put(data, offset, LeBytes(END_MARKER, 4));
      return Ok(data[..]);
    }
  }

  lemma AllZero(s: seq<byte>)
    requires forall i :: 0 <= i < |s| ==> s[i] == 0
    ensures s == Zeros(|s|)
  {
  }

  // ---------------------------------------------------------------------
  // Reading

  function Prepended(before: seq<Attribute>, r: Outcome<seq<Attribute>>): (o: Outcome<seq<Attribute>>) {
    match r
    case Ok(rest) => Ok(before + rest)
    case other => other
  }

  /** The attribute loop of MftRecord::deserialize. */
  method ReadAttributes(data: seq<byte>, first: nat, bytesInUse: nat) returns (r: Outcome<seq<Attribute>>)
    ensures r == DecodeAttributes(data, first, bytesInUse)
  {
    hide DecodeAttribute, ReadU32;
    var offset := first;
    var attributes: seq<Attribute> := [];
    assert Prepended([], DecodeAttributes(data, first, bytesInUse)) == DecodeAttributes(data, first, bytesInUse) by {
      PrependNone(DecodeAttributes(data, first, bytesInUse));
    }
    while offset < bytesInUse
      invariant Prepended(attributes, DecodeAttributes(data, offset, bytesInUse))
                == DecodeAttributes(data, first, bytesInUse)
    {
      if offset + 4 > |data| {
        return Panic;
      }
      if ReadU32(data, offset) == END_MARKER {
        break;
      }
      var attr := DecodeAttribute(data[offset..]);
      match attr {
        case InvalidParameter => return InvalidParameter;
        case DriveError => return DriveError;
        case Panic => return Panic;
        case Endless => return Endless;
        case Ok(a) =>
          if a.header.length == 0 {
            return Endless;
          }
          PrependMore(attributes, a, DecodeAttributes(data, offset + a.header.length, bytesInUse));
          offset := offset + a.header.length;
          attributes := attributes + [a];
      }
    }
    assert attributes + [] == attributes;
    return Ok(attributes);
  }

  lemma PrependNone(r: Outcome<seq<Attribute>>)
    ensures Prepended([], r) == r
  {
    if r.Ok? {
      assert [] + r.value == r.value;
    }
  }

  lemma PrependMore(before: seq<Attribute>, a: Attribute, r: Outcome<seq<Attribute>>)
    ensures Prepended(before + [a], r) == Prepended(before, Prepended([a], r))
  {
    if r.Ok? {
      assert before + [a] + r.value == before + ([a] + r.value);
    }
  }

  /** MftRecord::deserialize. */
  method Deserialize(data: seq<byte>, number: u64) returns (r: Outcome<Record>)
    ensures r == Decode(data, number)
  {
    hide DecodeHeader, DecodeAttributes;
    if |data| < RECORD_SIZE {
      return InvalidParameter;
    }
    var header := DecodeHeader(data);
    if !IsValid(header) {
      return InvalidParameter;
    }
    var attributes := ReadAttributes(data, header.firstAttribute, header.bytesInUse);
    match attributes {
      case Ok(list) => return Ok(Record(header, list, number));
      case InvalidParameter => return InvalidParameter;
      case DriveError => return DriveError;
      case Panic => return Panic;
      case Endless => return Endless;
    }
  }
}
