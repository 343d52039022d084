/** When a file record survives being written and read back. */
module MftRoundTrip {
  import opened Bytes
  import opened Sequences
  import opened LittleEndian
  import opened MftRecords
  import opened Numbers

  const END: seq<byte> := LeBytes(END_MARKER, 4)

  function Chunks(attributes: seq<Attribute>): (s: seq<byte>) {
    if attributes == [] then [] else EncodeAttribute(attributes[0]) + Chunks(attributes[1..])
  }

  /** Whether the record's encoding fits its 1024 bytes. */
  predicate Fits(r: Record) {
    56 + |Chunks(r.attributes)| + 4 <= RECORD_SIZE
  }

  /** An attribute whose recorded length is the length of its encoding, with nothing left unparsed. */
  predicate Plain(a: Attribute) {
    a.data.Resident? && |a.data.content| % 8 == 0
  }

  // ---------------------------------------------------------------------
  // The layout of an encoded record

  lemma PatchZeros(prefix: seq<byte>, room: nat, bytes: seq<byte>)
    requires |bytes| <= room
    ensures Patched(prefix + Zeros(room), |prefix|, bytes) == prefix + bytes + Zeros(room - |bytes|)
  {
  }

  lemma PutStep(buf: seq<byte>, offset: nat, attributes: seq<Attribute>)
    requires attributes != []
    ensures var chunk := EncodeAttribute(attributes[0]);
            PutAttributes(buf, offset, attributes)
            == if offset + |chunk| > |buf| then Panic
               else PutAttributes(Patched(buf, offset, chunk), offset + |chunk|, attributes[1..])
  {
    hide EncodeAttribute, Patched;
  }

  /** Encoded attributes and the end marker between `prefix` and `post`. */
  function Image(prefix: seq<byte>, attributes: seq<Attribute>, post: seq<byte>): (s: seq<byte>)
    ensures |s| == |prefix| + |Chunks(attributes)| + 4 + |post|
  {
    prefix + (Chunks(attributes) + (END + post))
  }

  /** The same bytes, seen from the next attribute. */
  lemma ImageStep(prefix: seq<byte>, attributes: seq<Attribute>, post: seq<byte>)
    requires attributes != []
    ensures var chunk := EncodeAttribute(attributes[0]);
            && |Chunks(attributes)| == |chunk| + |Chunks(attributes[1..])|
            && Image(prefix, attributes, post) == Image(prefix + chunk, attributes[1..], post)
            && Image(prefix, attributes, post)[|prefix|..] == chunk + (Chunks(attributes[1..]) + (END + post))
  {
    hide EncodeAttribute, LeBytes;
    var chunk := EncodeAttribute(attributes[0]);
    var rest := END + post;
    assert (chunk + Chunks(attributes[1..])) + rest == chunk + (Chunks(attributes[1..]) + rest);
    assert prefix + (chunk + (Chunks(attributes[1..]) + rest)) == (prefix + chunk) + (Chunks(attributes[1..]) + rest);
  }

  lemma ImageEnd(prefix: seq<byte>, post: seq<byte>)
    ensures Chunks([]) == []
    ensures Image(prefix, [], post) == prefix + END + post
  {
    assert [] + (END + post) == END + post;
    assert prefix + (END + post) == prefix + END + post;
  }

  lemma PutEnd(prefix: seq<byte>, room: nat)
    ensures |Chunks([])| == 0
    ensures PutAttributes(prefix + Zeros(room), |prefix|, [])
            == if 4 <= room then Ok(Image(prefix, [], Zeros(room - 4))) else Panic
  {
    hide LeBytes, Patched, Zeros, Image;
    if 4 <= room {
      PatchZeros(prefix, room, END);
      ImageEnd(prefix, Zeros(room - 4));
    }
  }

  lemma {:induction false} PutAll(prefix: seq<byte>, room: nat, attributes: seq<Attribute>)
    ensures var size := |Chunks(attributes)| + 4;
            PutAttributes(prefix + Zeros(room), |prefix|, attributes)
            == if size <= room then Ok(Image(prefix, attributes, Zeros(room - size))) else Panic
    decreases |attributes|
  {
    hide *;
    if attributes == [] {
      PutEnd(prefix, room);
    } else {
      var chunk := EncodeAttribute(attributes[0]);
      var size := |Chunks(attributes)| + 4;
      PutStep(prefix + Zeros(room), |prefix|, attributes);
      ImageStep(prefix, attributes, []);
      if |chunk| <= room {
        PatchZeros(prefix, room, chunk);
        PutAll(prefix + chunk, room - |chunk|, attributes[1..]);
        if size <= room {
          ImageStep(prefix, attributes, Zeros(room - size));
        }
      }
    }
  }

  /** The fixed part of an encoded record: the header and the gap up to the first attribute. */
  function Preamble(h: RecordHeader): (s: seq<byte>)
    ensures |s| == 56
  {
    HeaderBytes(h) + Zeros(14)
  }

  /** Serialising a built record lays out header, attributes, end marker and zeros, or panics when they do not fit. */
  lemma Layout(r: Record)
    requires r.header.firstAttribute == 56
    ensures Encode(r).Panic? <==> !Fits(r)
    ensures Fits(r) ==>
              Encode(r) == Ok(Image(Preamble(r.header), r.attributes, Zeros(RECORD_SIZE - 60 - |Chunks(r.attributes)|)))
  {
    hide HeaderBytes, Chunks, LeBytes, PutAttributes, Image;
    PutAll(Preamble(r.header), RECORD_SIZE - 56, r.attributes);
    assert HeaderBytes(r.header) + Zeros(RECORD_SIZE - 42) == Preamble(r.header) + Zeros(RECORD_SIZE - 56);
  }

  // ---------------------------------------------------------------------
  // Headers

  lemma HeaderRoundTrip(h: RecordHeader, data: seq<byte>)
    requires HeaderBytes(h) <= data
    ensures DecodeHeader(data) == h
  {
    hide LeBytes, ReadU16, ReadU32, ReadU64;
    var s1 := h.signature + LeBytes(h.updateSequenceOffset, 2);
    var s2 := s1 + LeBytes(h.updateSequenceSize, 2);
    var s3 := s2 + LeBytes(h.logSequenceNumber, 8);
    var s4 := s3 + LeBytes(h.sequenceNumber, 2);
    var s5 := s4 + LeBytes(h.hardLinkCount, 2);
    var s6 := s5 + LeBytes(h.firstAttribute, 2);
    var s7 := s6 + LeBytes(h.flags, 2);
    var s8 := s7 + LeBytes(h.bytesInUse, 4);
    var s9 := s8 + LeBytes(h.bytesAllocated, 4);
    var s10 := s9 + LeBytes(h.baseRecord, 8);
    Field16(data, s10, h.nextAttributeId);
    Field64(data, s9, h.baseRecord);
    Field32(data, s8, h.bytesAllocated);
    Field32(data, s7, h.bytesInUse);
    Field16(data, s6, h.flags);
    Field16(data, s5, h.firstAttribute);
    Field16(data, s4, h.hardLinkCount);
    Field16(data, s3, h.sequenceNumber);
    Field64(data, s2, h.logSequenceNumber);
    Field16(data, s1, h.updateSequenceSize);
    Field16(data, h.signature, h.updateSequenceOffset);
  }

  lemma AttributeHeaderRoundTrip(h: AttributeHeader, data: seq<byte>)
    requires AttributeHeaderBytes(h) <= data
    ensures DecodeAttributeHeader(data) == h
  {
    hide LeBytes, ReadU16, ReadU32, ReadU64;
    var s1 := LeBytes(h.attrType, 4);
    var s2 := s1 + LeBytes(h.length, 4);
    var s3 := s2 + [if h.nonResident then 1 else 0];
    var s4 := s3 + [h.nameLength];
    var s5 := s4 + LeBytes(h.nameOffset, 2);
    var s6 := s5 + LeBytes(h.flags, 2);
    Field16(data, s6, h.attributeId);
    Field16(data, s5, h.flags);
    Field16(data, s4, h.nameOffset);
    FieldBytes(data, s3, [h.nameLength]);
    FieldBytes(data, s2, [if h.nonResident then 1 else 0]);
    assert data[8..9][0] == data[8] && data[9..10][0] == data[9];
    Field32(data, s1, h.length);
    assert [] + s1 == s1;
    Field32(data, [], h.attrType);
  }

  // ---------------------------------------------------------------------
  // Attributes

  /** A resident attribute is read back whatever follows it. */
  lemma ResidentRoundTrip(a: Attribute, data: seq<byte>)
    requires a.data.Resident? && !a.header.nonResident && |a.data.content| < 0x1_0000_0000
    requires EncodeAttribute(a) <= data
    ensures DecodeAttribute(data) == Ok(a)
  {
    hide LeBytes, ReadU16, ReadU32, ReadU64, AttributeHeaderBytes, DecodeAttributeHeader, Zeros, Padding;
    var content := a.data.content;
    var head := AttributeHeaderBytes(a.header);
    var s1 := head + LeBytes(|content|, 4);
    var s2 := s1 + LeBytes(24, 2);
    var s3 := s2 + LeBytes(0, 2);
    assert Unpadded(a) == s3 + content;
    FieldBytes(data, Unpadded(a), Zeros(Padding(|Unpadded(a)|)));
    FieldBytes(data, s3, content);
    Field16(data, s2, 0);
    Field16(data, s1, 24);
    Field32(data, head, |content|);
    AttributeHeaderRoundTrip(a.header, data);
  }

  lemma PaddingZero(n: nat)
    ensures Padding(n) == 0 <==> n % 8 == 0
  {
  }

  lemma FirstZero(n: nat)
    ensures n > 0 ==> Zeros(n)[0] == 0
  {
  }

  lemma PaddingFollows(a: Attribute)
    ensures |Unpadded(a)| < |EncodeAttribute(a)| ==> EncodeAttribute(a)[|Unpadded(a)|] == 0
    ensures |Unpadded(a)| == |EncodeAttribute(a)| <==> |Unpadded(a)| % 8 == 0
  {
    hide Unpadded, Padding;
    PaddingZero(|Unpadded(a)|);
    FirstZero(Padding(|Unpadded(a)|));
  }

  lemma ResidentLength(a: Attribute)
    requires Made(a) && a.data.Resident? && |EncodeAttribute(a)| <= RECORD_SIZE
    ensures a.header.length == 24 + |a.data.content| == |Unpadded(a)|
  {
    hide LeBytes, AttributeHeaderBytes, ResidentBytes;
    assert 24 + |a.data.content| <= RECORD_SIZE;
  }

  lemma NonResidentLength(a: Attribute)
    requires Made(a) && a.data.NonResident?
    ensures a.header.length == 64 < |EncodeAttribute(a)|
    ensures a.data.runs == [] ==> EncodeAttribute(a)[64] == 0
  {
    hide LeBytes, AttributeHeaderBytes, RunBytes, Clusters;
    if a.data.runs == [] {
      assert Unpadded(a)[64] == NonResidentBytes(a.data)[48];
    }
  }

  lemma EightMore(n: nat)
    ensures (24 + n) % 8 == n % 8
  {
  }

  /** The recorded length of a constructed attribute is at most its encoding's, and zeros follow it. */
  lemma LengthWithinChunk(a: Attribute)
    requires Made(a) && |EncodeAttribute(a)| <= RECORD_SIZE
    ensures 0 < a.header.length <= |EncodeAttribute(a)|
    ensures Plain(a) ==> a.header.length == |EncodeAttribute(a)|
    ensures !Plain(a) && (a.data.Resident? || a.data.runs == []) ==>
              a.header.length < |EncodeAttribute(a)| && EncodeAttribute(a)[a.header.length] == 0
  {
    hide EncodeAttribute, Made, Unpadded;
    if a.data.Resident? {
      ResidentLength(a);
      PaddingFollows(a);
      EightMore(|a.data.content|);
    } else {
      NonResidentLength(a);
    }
  }

  // ---------------------------------------------------------------------
  // Sequences of attributes

  ghost predicate AllMade(attributes: seq<Attribute>) {
    forall i :: 0 <= i < |attributes| ==> Made(attributes[i])
  }

  predicate AllPlain(attributes: seq<Attribute>) {
    forall i :: 0 <= i < |attributes| ==> Plain(attributes[i])
  }

  lemma {:induction false} LengthsFront(attributes: seq<Attribute>)
    requires attributes != []
    ensures Lengths(attributes) == attributes[0].header.length + Lengths(attributes[1..])
    decreases |attributes|
  {
    var n := |attributes|;
    if n > 1 {
      LengthsFront(attributes[..n - 1]);
      assert attributes[..n - 1][1..] == attributes[1..][..n - 2];
    }
  }

  lemma {:induction false} LengthsWithinChunks(attributes: seq<Attribute>)
    requires AllMade(attributes) && |Chunks(attributes)| <= RECORD_SIZE
    ensures Lengths(attributes) <= |Chunks(attributes)|
    decreases |attributes|
  {
    if attributes != [] {
      LengthsFront(attributes);
      LengthWithinChunk(attributes[0]);
      LengthsWithinChunks(attributes[1..]);
    }
  }

  /** The type of an attribute is not the end marker's. */
  lemma TypeAt(data: seq<byte>, offset: nat, a: Attribute)
    requires offset <= |data| && DecodeAttribute(data[offset..]) == Ok(a)
    ensures offset + 4 <= |data| && a.header.attrType == ReadU32(data, offset)
    ensures a.header.attrType % 256 == data[offset]
  {
    assert data[offset..][0..4] == data[offset..offset + 4];
    LowByte(data, offset, 4);
  }

  /** The loop at the end marker. */
  lemma DecodeEnd(prefix: seq<byte>, post: seq<byte>, bytesInUse: nat)
    ensures DecodeAttributes(Image(prefix, [], post), |prefix|, bytesInUse) == Ok([])
  {
    hide LeBytes, ReadU32, Image, DecodeAttribute;
    ImageEnd(prefix, post);
    Field32(Image(prefix, [], post), prefix, END_MARKER);
  }

  /** The loop at a readable attribute. */
  lemma DecodeStep(data: seq<byte>, offset: nat, bytesInUse: nat, a: Attribute, rest: seq<Attribute>)
    requires offset < bytesInUse && offset <= |data|
    requires DecodeAttribute(data[offset..]) == Ok(a) && a.header.length > 0 && a.header.attrType != END_MARKER
    requires DecodeAttributes(data, offset + a.header.length, bytesInUse) == Ok(rest)
    ensures DecodeAttributes(data, offset, bytesInUse) == Ok([a] + rest)
  {
    hide ReadU32, DecodeAttribute;
    TypeAt(data, offset, a);
  }

  /** A constructed attribute with content in place is read back wherever it stands. */
  lemma ReadInPlace(prefix: seq<byte>, attributes: seq<Attribute>, post: seq<byte>)
    requires attributes != [] && Made(attributes[0]) && Plain(attributes[0])
    requires |Image(prefix, attributes, post)| <= RECORD_SIZE
    ensures DecodeAttribute(Image(prefix, attributes, post)[|prefix|..]) == Ok(attributes[0])
  {
    hide Chunks, LeBytes, DecodeAttribute, EncodeAttribute, Image;
    ImageStep(prefix, attributes, post);
    MadeResident(attributes[0]);
    ResidentRoundTrip(attributes[0], Image(prefix, attributes, post)[|prefix|..]);
  }

  lemma {:induction false} PlainReadBack(
      prefix: seq<byte>, attributes: seq<Attribute>, post: seq<byte>, bytesInUse: nat)
    requires AllMade(attributes) && AllPlain(attributes)
    requires |Image(prefix, attributes, post)| <= RECORD_SIZE
    requires attributes != [] ==> |prefix| + Lengths(attributes) <= bytesInUse
    ensures DecodeAttributes(Image(prefix, attributes, post), |prefix|, bytesInUse) == Ok(attributes)
    decreases |attributes|
  {
    hide EncodeAttribute, DecodeAttribute, DecodeAttributes, LeBytes, Chunks, Image, Made, Plain, Lengths;
    if attributes == [] {
      DecodeEnd(prefix, post, bytesInUse);
    } else {
      var a, rest := attributes[0], attributes[1..];
      ImageStep(prefix, attributes, post);
      LengthWithinChunk(a);
      LengthsFront(attributes);
      MadeType(a);
      ReadInPlace(prefix, attributes, post);
      PlainReadBack(prefix + EncodeAttribute(a), rest, post, bytesInUse);
      DecodeStep(Image(prefix, attributes, post), |prefix|, bytesInUse, a, rest);
      assert [a] + rest == attributes;
    }
  }

  lemma MadeResident(a: Attribute)
    requires Made(a) && a.data.Resident?
    ensures !a.header.nonResident
  {
  }

  /** An attribute read where a zero byte stands has a type no constructor gives. */
  lemma ZeroByteType(data: seq<byte>, offset: nat, bytesInUse: nat, attributes: seq<Attribute>)
    requires offset < bytesInUse && offset < |data| && data[offset] == 0
    requires DecodeAttributes(data, offset, bytesInUse) == Ok(attributes)
    ensures attributes != [] && attributes[0].header.attrType % 256 == 0
  {
    hide DecodeAttribute, ReadU32;
    assert offset + 4 <= |data|;
    ZeroNotEnd(data, offset);
    TypeAt(data, offset, attributes[0]);
  }

  lemma ZeroNotEnd(data: seq<byte>, offset: nat)
    requires offset + 4 <= |data| && data[offset] == 0
    ensures ReadU32(data, offset) != END_MARKER
  {
    LowByte(data, offset, 4);
  }

  lemma NotReadAsMade(data: seq<byte>, offset: nat, bytesInUse: nat, attributes: seq<Attribute>)
    requires offset < bytesInUse && offset < |data| && data[offset] == 0
    requires AllMade(attributes)
    ensures DecodeAttributes(data, offset, bytesInUse) != Ok(attributes)
  {
    hide DecodeAttributes, Made;
    if DecodeAttributes(data, offset, bytesInUse) == Ok(attributes) {
      ZeroByteType(data, offset, bytesInUse, attributes);
      MadeType(attributes[0]);
    }
  }

  /** After an attribute that is not plain the loop stands on a zero byte. */
  lemma ZeroAfter(prefix: seq<byte>, attributes: seq<Attribute>, post: seq<byte>)
    requires attributes != [] && Made(attributes[0]) && !Plain(attributes[0])
    requires attributes[0].data.NonResident? ==> attributes[0].data.runs == []
    requires |Image(prefix, attributes, post)| <= RECORD_SIZE
    ensures var next := |prefix| + attributes[0].header.length;
            next < |Image(prefix, attributes, post)| && Image(prefix, attributes, post)[next] == 0
  {
    hide Chunks, LeBytes, EncodeAttribute, Image, Made, Plain;
    ImageStep(prefix, attributes, post);
    LengthWithinChunk(attributes[0]);
    var data := Image(prefix, attributes, post);
    assert data[|prefix|..][attributes[0].header.length] == data[|prefix| + attributes[0].header.length];
  }

  lemma {:induction false} OthersDiffer(
      prefix: seq<byte>, attributes: seq<Attribute>, post: seq<byte>, bytesInUse: nat)
    requires AllMade(attributes) && !AllPlain(attributes)
    requires |Image(prefix, attributes, post)| <= RECORD_SIZE
    requires |prefix| + Lengths(attributes) < bytesInUse
    ensures DecodeAttributes(Image(prefix, attributes, post), |prefix|, bytesInUse) != Ok(attributes)
    decreases |attributes|
  {
    hide EncodeAttribute, DecodeAttribute, DecodeAttributes, LeBytes, Chunks, Image, Made, Plain, Lengths, LeValue;
    var data := Image(prefix, attributes, post);
    if DecodeAttributes(data, |prefix|, bytesInUse) == Ok(attributes) {
      var a, rest := attributes[0], attributes[1..];
      ImageStep(prefix, attributes, post);
      LengthWithinChunk(a);
      LengthsFront(attributes);
      FirstRead(data, |prefix|, bytesInUse, attributes);
      if Plain(a) {
        OthersDiffer(prefix + EncodeAttribute(a), rest, post, bytesInUse);
      } else {
        ZeroAfter(prefix, attributes, post);
        NotReadAsMade(data, |prefix| + a.header.length, bytesInUse, rest);
      }
    }
  }

  lemma MadeType(a: Attribute)
    requires Made(a)
    ensures 0 < a.header.attrType < 256
  {
  }

  lemma FirstRead(data: seq<byte>, offset: nat, bytesInUse: nat, attributes: seq<Attribute>)
    requires offset < bytesInUse && offset <= |data| && attributes != []
    requires DecodeAttributes(data, offset, bytesInUse) == Ok(attributes)
    ensures DecodeAttribute(data[offset..]) == Ok(attributes[0])
    ensures attributes[0].data.NonResident? ==> attributes[0].data.runs == []
    ensures DecodeAttributes(data, offset + attributes[0].header.length, bytesInUse) == Ok(attributes[1..])
  {
    hide DecodeAttribute, ReadU32;
  }

  // ---------------------------------------------------------------------
  // Records

  /**
   * A record that fits comes back exactly as it was written if and only if every attribute is
   * resident with a content length divisible by eight.
   */
  lemma RecordRoundTrip(r: Record, data: seq<byte>)
    requires Built(r) && Encode(r) == Ok(data)
    ensures Decode(data, r.number) == Ok(r) <==> AllPlain(r.attributes)
  {
    hide HeaderBytes, DecodeAttributes, DecodeHeader, Chunks, Plain, LeBytes, PutAttributes, Made;
    Layout(r);
    var post := Zeros(RECORD_SIZE - 60 - |Chunks(r.attributes)|);
    var prefix := Preamble(r.header);
    assert HeaderBytes(r.header) <= Preamble(r.header) <= data;
    HeaderRoundTrip(r.header, data);
    LengthsWithinChunks(r.attributes);
    if AllPlain(r.attributes) {
      PlainReadBack(prefix, r.attributes, post, r.header.bytesInUse);
    } else {
      OthersDiffer(prefix, r.attributes, post, r.header.bytesInUse);
    }
  }

  /** One byte of content is enough for a record to be lost. */
  lemma OneByteLost(number: u64) returns (r: Record)
    ensures Built(r) && r.number == number && r.attributes == [NewResident(Data, [1])]
    ensures Encode(r).Ok? && Decode(Encode(r).value, number) != Ok(r)
  {
    hide Encode, Decode;
    var a := NewResident(Data, [1]);
    assert MadeAs(a, Data);
    assert Lengths([a]) == 25;
    r := Record(RecordHeader(SIGNATURE, 48, 3, 0, 1, 1, 56, 0, 85, RECORD_SIZE, number, 1), [a], number);
    OneChunk(a);
    Layout(r);
    assert !Plain(r.attributes[0]);
    RecordRoundTrip(r, Encode(r).value);
  }

  lemma OneChunk(a: Attribute)
    ensures Chunks([a]) == EncodeAttribute(a)
  {
    assert Chunks([a]) == EncodeAttribute(a) + [];
  }
}
