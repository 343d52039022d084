/** The bytes of a file record: where each field stands, and all that is accepted (crates/galleon2/src/mft.rs). */
module MftFormat {
  import opened Bytes
  import opened LittleEndian
  import opened RunLists
  import opened MftRecords
  import opened MftRoundTrip
  import opened Numbers

  // ---------------------------------------------------------------------
  // The record header

  /** The fields of a record header, by offset and width. */
  predicate HeaderAt(data: seq<byte>, h: RecordHeader) {
    && |data| >= 42 && data[0..4] == h.signature
    && ReadLe(data, 4, 2) == h.updateSequenceOffset && ReadLe(data, 6, 2) == h.updateSequenceSize
    && ReadLe(data, 8, 8) == h.logSequenceNumber && ReadLe(data, 16, 2) == h.sequenceNumber
    && ReadLe(data, 18, 2) == h.hardLinkCount && ReadLe(data, 20, 2) == h.firstAttribute
    && ReadLe(data, 22, 2) == h.flags && ReadLe(data, 24, 4) == h.bytesInUse
    && ReadLe(data, 28, 4) == h.bytesAllocated && ReadLe(data, 32, 8) == h.baseRecord
    && ReadLe(data, 40, 2) == h.nextAttributeId
  }

  lemma HeaderDecodes(data: seq<byte>, h: RecordHeader)
    requires |data| >= 42
    ensures DecodeHeader(data) == h <==> HeaderAt(data, h)
  {
    hide LeValue;
    assert data[0..4] == data[..4];
  }

  // ---------------------------------------------------------------------
  // Attributes

  /** The fields of an attribute, by offset and width; run lists are not read. */
  predicate AttributeAt(data: seq<byte>, a: Attribute) {
    && |data| >= 16
    && ReadLe(data, 0, 4) == a.header.attrType && ReadLe(data, 4, 4) == a.header.length
    && (data[8] != 0 <==> a.header.nonResident) && data[9] == a.header.nameLength
    && ReadLe(data, 10, 2) == a.header.nameOffset && ReadLe(data, 12, 2) == a.header.flags
    && ReadLe(data, 14, 2) == a.header.attributeId
    && (a.data.NonResident? <==> a.header.nonResident)
    && match a.data
       case Resident(content) =>
         && |data| >= 22 && ReadLe(data, 16, 4) == |content| && ReadLe(data, 20, 2) + |content| <= |data|
         && data[ReadLe(data, 20, 2)..ReadLe(data, 20, 2) + |content|] == content
       case NonResident(runs, allocatedSize, realSize, initializedSize) =>
         && runs == [] && |data| >= 56 && ReadLe(data, 32, 8) == allocatedSize
         && ReadLe(data, 40, 8) == realSize && ReadLe(data, 48, 8) == initializedSize
  }

  lemma AttributeDecodes(data: seq<byte>, a: Attribute)
    ensures DecodeAttribute(data) == Ok(a) <==> AttributeAt(data, a)
  {
    hide LeValue;
  }

  /** Attributes from an offset up to the size in use or to the end marker, each as long as it says. */
  predicate AttributesAt(data: seq<byte>, offset: nat, bytesInUse: nat, attributes: seq<Attribute>)
    decreases |attributes|
  {
    if offset >= bytesInUse then attributes == []
    else if offset + 4 > |data| then false
    else if ReadLe(data, offset, 4) == 0xFFFF_FFFF then attributes == []
    else
      && attributes != [] && AttributeAt(data[offset..], attributes[0]) && attributes[0].header.length > 0
      && AttributesAt(data, offset + attributes[0].header.length, bytesInUse, attributes[1..])
  }

  lemma {:induction false} AttributesDecode(data: seq<byte>, offset: nat, bytesInUse: nat, attributes: seq<Attribute>)
    ensures DecodeAttributes(data, offset, bytesInUse) == Ok(attributes)
       <==> AttributesAt(data, offset, bytesInUse, attributes)
    decreases bytesInUse - offset
  {
    hide DecodeAttribute, AttributeAt, LeValue;
    if offset < bytesInUse && offset + 4 <= |data| && ReadLe(data, offset, 4) != 0xFFFF_FFFF {
      var first := DecodeAttribute(data[offset..]);
      if first.Ok? && first.value.header.length > 0 {
        AttributeDecodes(data[offset..], first.value);
        if attributes != [] {
          AttributeDecodes(data[offset..], attributes[0]);
          AttributesDecode(data, offset + first.value.header.length, bytesInUse, attributes[1..]);
          assert attributes == [attributes[0]] + attributes[1..];
        }
      } else if attributes != [] {
        AttributeDecodes(data[offset..], attributes[0]);
      }
    }
  }

  /**
   Theorem: data is decoded to a record if and only if it has at least 1024 bytes
   and begins with the record's header, which has the signature "FILE", 1024
   bytes allocated and no more than that in use, and with its attributes where
   the header says.
   */
  lemma DecodeExactly(data: seq<byte>, number: u64, r: Record)
    ensures Decode(data, number) == Ok(r) <==>
              && |data| >= 1024 && r.number == number && HeaderAt(data, r.header)
              && r.header.signature == [70, 73, 76, 69] && r.header.bytesAllocated == 1024 && r.header.bytesInUse <= 1024
              && AttributesAt(data, r.header.firstAttribute, r.header.bytesInUse, r.attributes)
  {
    hide DecodeHeader, DecodeAttributes, AttributesAt, HeaderAt;
    if |data| >= 1024 {
      HeaderDecodes(data, r.header);
      AttributesDecode(data, r.header.firstAttribute, r.header.bytesInUse, r.attributes);
    }
  }

  /** Data that is too short, or whose header is not a record's, is refused as such. */
  lemma DecodeRefuses(data: seq<byte>, number: u64)
    ensures |data| < 1024 ==> Decode(data, number) == InvalidParameter
    ensures |data| >= 1024
            && !(data[0..4] == [70, 73, 76, 69] && ReadLe(data, 28, 4) == 1024 && ReadLe(data, 24, 4) <= 1024) ==>
              Decode(data, number) == InvalidParameter
  {
    hide DecodeAttributes, LeValue;
    if |data| >= 1024 {
      assert data[0..4] == data[..4];
    }
  }

  // ---------------------------------------------------------------------
  // What is written

  /** A new resident attribute: the code of its type, its length with the header, and its content at byte 24. */
  lemma ResidentWritten(t: AttributeType, content: seq<byte>)
    requires |content| < 0xFFFF_0000
    ensures var data := EncodeAttribute(NewResident(t, content));
            && |data| >= 24 + |content| && |data| % 8 == 0
            && ReadLe(data, 0, 4) == (match t
                                      case StandardInformation => 0x10
                                      case FileName => 0x30
                                      case Data => 0x80
                                      case IndexRoot => 0x90
                                      case IndexAllocation => 0xA0
                                      case Bitmap => 0xB0)
            && ReadLe(data, 4, 4) == 24 + |content| && data[8] == 0
            && ReadLe(data, 16, 4) == |content| && ReadLe(data, 20, 2) == 24
            && data[24..24 + |content|] == content
  {
    hide EncodeAttribute, AttributeAt, LeBytes, LeValue;
    var a := NewResident(t, content);
    var data := EncodeAttribute(a);
    ResidentRoundTrip(a, data);
    AttributeDecodes(data, a);
    HeaderFields(data, a);
    ContentWritten(a, data);
  }

  lemma HeaderFields(data: seq<byte>, a: Attribute)
    requires AttributeAt(data, a)
    ensures |data| >= 16 && ReadLe(data, 0, 4) == a.header.attrType && ReadLe(data, 4, 4) == a.header.length
    ensures data[8] != 0 <==> a.header.nonResident
  {
    hide LeValue;
  }

  lemma ContentWritten(a: Attribute, data: seq<byte>)
    requires a.data.Resident? && |a.data.content| < 0x1_0000_0000 && EncodeAttribute(a) <= data
    ensures |EncodeAttribute(a)| >= 24 + |a.data.content| && |EncodeAttribute(a)| % 8 == 0
    ensures ReadLe(data, 16, 4) == |a.data.content| && ReadLe(data, 20, 2) == 24
    ensures data[24..24 + |a.data.content|] == a.data.content
  {
    hide LeBytes, LeValue, AttributeHeaderBytes, Zeros, Padding;
    var content := a.data.content;
    var s1 := AttributeHeaderBytes(a.header) + LeBytes(|content|, 4);
    var s2 := s1 + LeBytes(24, 2);
    var s3 := s2 + LeBytes(0, 2);
    assert Unpadded(a) == s3 + content;
    FieldBytes(data, Unpadded(a), Zeros(Padding(|Unpadded(a)|)));
    FieldBytes(data, s3, content);
    FieldBytes(data, s2, LeBytes(0, 2));
    Field16(data, s1, 24);
    Field32(data, AttributeHeaderBytes(a.header), |content|);
  }

  /** Where the runs of a non-resident attribute are written: run `i` at byte 64 + 16 * i, its count first. */
  lemma NonResidentWritten(a: Attribute, i: nat)
    requires a.data.NonResident? && i < |a.data.runs|
    ensures var data := EncodeAttribute(a);
            && |data| >= 65 + 16 * |a.data.runs|
            && ReadLe(data, 64 + 16 * i, 8) == a.data.runs[i].count
            && ReadLe(data, 72 + 16 * i, 8) == a.data.runs[i].start
            && data[64 + 16 * |a.data.runs|] == 0
  {
    hide LeBytes, LeValue, AttributeHeaderBytes, RunBytes, Zeros, Padding;
    var data := EncodeAttribute(a);
    var prefix := Unpadded(a)[..64];
    var runs := RunBytes(a.data.runs);
    assert Unpadded(a) == prefix + runs + [0];
    assert prefix + runs <= data;
    RunAt(data, prefix, a.data.runs, i);
    assert data[64 + 16 * |a.data.runs|] == Unpadded(a)[64 + 16 * |a.data.runs|];
  }

  lemma {:induction false} RunAt(data: seq<byte>, prefix: seq<byte>, runs: seq<ClusterRun>, i: nat)
    requires prefix + RunBytes(runs) <= data && i < |runs|
    ensures |prefix| + 16 * i + 16 <= |data|
    ensures ReadLe(data, |prefix| + 16 * i, 8) == runs[i].count
    ensures ReadLe(data, |prefix| + 16 * i + 8, 8) == runs[i].start
    decreases |runs|
  {
    hide LeBytes, LeValue;
    var n := |runs| - 1;
    var before, last := RunBytes(runs[..n]), runs[n];
    var s1 := prefix + before;
    var s2 := s1 + LeBytes(last.count, 8);
    assert prefix + RunBytes(runs) == s2 + LeBytes(last.start, 8);
    Field64(data, s2, last.start);
    Field64(data, s1, last.count);
    if i < n {
      RunAt(data, prefix, runs[..n], i);
    }
  }

  /** A number that fits `w` bytes has zeros above them. */
  lemma {:induction false} HighZeros(n: nat, w: nat, k: nat)
    requires n < Limit(w)
    ensures LeBytes(n, w + k) == LeBytes(n, w) + LeBytes(0, k)
    decreases w
  {
    if w > 0 {
      HighZeros(n / 256, w - 1, k);
      assert [n % 256] + (LeBytes(n / 256, w - 1) + LeBytes(0, k)) == [n % 256] + LeBytes(n / 256, w - 1) + LeBytes(0, k);
    } else {
      assert [] + LeBytes(0, k) == LeBytes(0, k);
    }
  }

  /** Eight bytes that stand for 40. */
  lemma FortyBytes(data: seq<byte>, prefix: seq<byte>)
    requires prefix + LeBytes(40, 2) + LeBytes(0, 2) + LeBytes(0, 4) <= data
    ensures |prefix| + 8 <= |data| && ReadU64(data, |prefix|) == 40
  {
    hide LeBytes, LeValue, Limit;
    Limits();
    HighZeros(40, 2, 6);
    HighZeros(0, 2, 4);
    assert prefix + LeBytes(40, 2) + LeBytes(0, 2) + LeBytes(0, 4) == prefix + (LeBytes(40, 2) + (LeBytes(0, 2) + LeBytes(0, 4)));
    Field64(data, prefix, 40);
  }

  lemma HeaderFirst(a: Attribute, data: seq<byte>)
    requires EncodeAttribute(a) <= data
    ensures AttributeHeaderBytes(a.header) <= data
  {
    hide AttributeHeaderBytes, ResidentBytes, NonResidentBytes, Zeros, Padding;
    var head := AttributeHeaderBytes(a.header);
    assert head <= Unpadded(a) <= EncodeAttribute(a);
  }

  /**
   Theorem: the sizes of a non-resident attribute are read eight bytes before
   where they are written, so that it comes back with 40 for the allocated size,
   the allocated size for the real one, the real one for the initialized one,
   and without its runs.
   */
  lemma NonResidentShifts(a: Attribute, data: seq<byte>)
    requires a.data.NonResident? && a.header.nonResident && EncodeAttribute(a) <= data
    ensures DecodeAttribute(data)
         == Ok(Attribute(a.header, NonResident([], 40, a.data.allocatedSize, a.data.realSize)))
    ensures |data| >= 64 && ReadLe(data, 40, 8) == a.data.allocatedSize
    ensures ReadLe(data, 48, 8) == a.data.realSize && ReadLe(data, 56, 8) == a.data.initializedSize
  {
    hide LeBytes, LeValue, AttributeHeaderBytes, DecodeAttributeHeader, RunBytes, Zeros, Padding;
    var head := AttributeHeaderBytes(a.header);
    var s2 := head + LeBytes(0, 8) + LeBytes(0, 8);
    var s5 := s2 + LeBytes(40, 2) + LeBytes(0, 2) + LeBytes(0, 4);
    var s6 := s5 + LeBytes(a.data.allocatedSize, 8);
    var s7 := s6 + LeBytes(a.data.realSize, 8);
    var s8 := s7 + LeBytes(a.data.initializedSize, 8);
    assert Unpadded(a) == s8 + (RunBytes(a.data.runs) + [0]);
    FieldBytes(data, Unpadded(a), Zeros(Padding(|Unpadded(a)|)));
    FieldBytes(data, s8, RunBytes(a.data.runs) + [0]);
    Field64(data, s7, a.data.initializedSize);
    Field64(data, s6, a.data.realSize);
    Field64(data, s5, a.data.allocatedSize);
    FortyBytes(data, s2);
    HeaderFirst(a, data);
    AttributeHeaderRoundTrip(a.header, data);
  }

  /** Theorem: a record made by the constructors is written with its header's fields in place and "FILE" at the start. */
  lemma HeaderWritten(r: Record, data: seq<byte>)
    requires Built(r) && Encode(r) == Ok(data)
    ensures HeaderAt(data, r.header) && data[0..4] == [70, 73, 76, 69] && |data| == 1024
  {
    hide HeaderBytes, Chunks, LeBytes, PutAttributes, HeaderAt, Made, DecodeHeader;
    Layout(r);
    assert HeaderBytes(r.header) <= Preamble(r.header) <= data;
    HeaderRoundTrip(r.header, data);
    HeaderDecodes(data, r.header);
    SignatureAt(data, r.header);
  }

  lemma SignatureAt(data: seq<byte>, h: RecordHeader)
    requires HeaderAt(data, h)
    ensures |data| >= 42 && data[0..4] == h.signature
  {
  }
}
