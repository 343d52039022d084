/** File records of the master file table and their encoding (crates/galleon2/src/mft.rs). */
module MftRecords {
  import opened Bytes
  import opened Sequences
  import opened LittleEndian
  import opened RunLists
  import opened Numbers

  /** A call returns, fails with an error, stops at a checked slice, or never returns. */
  datatype Outcome<+T> = Ok(value: T) | InvalidParameter | DriveError | Panic | Endless

  const RECORD_SIZE: nat := 1024

  /** "FILE". */
  const SIGNATURE: Signature := [70, 73, 76, 69]

  type Signature = s: seq<byte> | |s| == 4 witness [0, 0, 0, 0]

  datatype RecordHeader = RecordHeader(
    signature: Signature, updateSequenceOffset: u16, updateSequenceSize: u16, logSequenceNumber: u64,
    sequenceNumber: u16, hardLinkCount: u16, firstAttribute: u16, flags: u16,
    bytesInUse: u32, bytesAllocated: u32, baseRecord: u64, nextAttributeId: u16)

  datatype AttributeType = StandardInformation | FileName | Data | IndexRoot | IndexAllocation | Bitmap {
    function Code(): (c: u32)
      ensures 0 < c < 256
    {
      match this
      case StandardInformation => 0x10
      case FileName => 0x30
      case Data => 0x80
      case IndexRoot => 0x90
      case IndexAllocation => 0xA0
      case Bitmap => 0xB0
    }
  }

  datatype AttributeHeader = AttributeHeader(
    attrType: u32, length: u32, nonResident: bool, nameLength: byte, nameOffset: u16, flags: u16, attributeId: u16)

  datatype AttributeData =
    | Resident(content: seq<byte>)
    | NonResident(runs: seq<ClusterRun>, allocatedSize: u64, realSize: u64, initializedSize: u64)

  datatype Attribute = Attribute(header: AttributeHeader, data: AttributeData)

  datatype Record = Record(header: RecordHeader, attributes: seq<Attribute>, number: u64)

  // ---------------------------------------------------------------------
  // Building records

  /** Attribute::new_resident. */
  function NewResident(t: AttributeType, content: seq<byte>): (a: Attribute) {
    Attribute(AttributeHeader(t.Code(), Wrap32(24 + |content|), false, 0, 24, 0, 0), Resident(content))
  }

  /** The sum of the runs' sizes in clusters. */
  function Clusters(runs: seq<ClusterRun>): (n: nat) {
    if runs == [] then 0 else runs[0].count + Clusters(runs[1..])
  }

  /** Attribute::new_non_resident. */
  function NewNonResident(t: AttributeType, runs: seq<ClusterRun>, realSize: u64): (a: Attribute) {
    Attribute(AttributeHeader(t.Code(), 64, true, 0, 64, 0, 0),
              NonResident(runs, Clusters(runs) * 4096 % WORD_LIMIT, realSize, realSize))
  }

  predicate MadeAs(a: Attribute, t: AttributeType) {
    match a.data
    case Resident(content) => a == NewResident(t, content)
    case NonResident(runs, _, realSize, _) => a == NewNonResident(t, runs, realSize)
  }

  /** An attribute as one of the two constructors makes it. */
  ghost predicate Made(a: Attribute) {
    exists t :: MadeAs(a, t)
  }

  /** 32-bit wrap-around. */
  function Wrap32(n: nat): (w: u32) {
    n % 0x1_0000_0000
  }

  lemma WrapAdd(n: nat, m: nat)
    ensures Wrap32(Wrap32(n) + m) == Wrap32(n + m)
  {
  }

  function Lengths(attributes: seq<Attribute>): (n: nat) {
    if attributes == [] then 0
    else Lengths(attributes[..|attributes| - 1]) + attributes[|attributes| - 1].header.length
  }

  /** A record made by MftRecord::new and add_attribute; the remaining header fields are free. */
  ghost predicate Built(r: Record) {
    && r.header.signature == SIGNATURE
    && r.header.firstAttribute == 56
    && r.header.bytesAllocated == RECORD_SIZE
    && (if r.attributes == [] then r.header.bytesInUse == 56
        else r.header.bytesInUse == Wrap32(56 + Lengths(r.attributes) + 4))
    && forall i :: 0 <= i < |r.attributes| ==> Made(r.attributes[i])
  }

  // ---------------------------------------------------------------------
  // Encoding

  lemma ZerosSnoc(n: nat)
    ensures Zeros(n) + [0] == Zeros(n + 1)
  {
  }

  function AttributeHeaderBytes(h: AttributeHeader): (s: seq<byte>)
    ensures |s| == 16
  {
    LeBytes(h.attrType, 4) + LeBytes(h.length, 4) + [if h.nonResident then 1 else 0] + [h.nameLength]
    + LeBytes(h.nameOffset, 2) + LeBytes(h.flags, 2) + LeBytes(h.attributeId, 2)
  }

  function RunBytes(runs: seq<ClusterRun>): (s: seq<byte>)
    ensures |s| == 16 * |runs|
  {
    if runs == [] then []
    else
      var last := runs[|runs| - 1];
      RunBytes(runs[..|runs| - 1]) + LeBytes(last.count, 8) + LeBytes(last.start, 8)
  }

  function ResidentBytes(content: seq<byte>): (s: seq<byte>)
    ensures |s| == 8 + |content|
  {
    LeBytes(|content|, 4) + LeBytes(24, 2) + LeBytes(0, 2) + content
  }

  function NonResidentBytes(data: AttributeData): (s: seq<byte>)
    requires data.NonResident?
    ensures |s| == 49 + 16 * |data.runs| && s[48 + 16 * |data.runs|] == 0
  {
    LeBytes(0, 8) + LeBytes(0, 8) + LeBytes(40, 2) + LeBytes(0, 2) + LeBytes(0, 4)
    + LeBytes(data.allocatedSize, 8) + LeBytes(data.realSize, 8) + LeBytes(data.initializedSize, 8)
    + RunBytes(data.runs) + [0]
  }

  function Unpadded(a: Attribute): (s: seq<byte>)
    ensures |s| == 16 + if a.data.Resident? then 8 + |a.data.content| else 49 + 16 * |a.data.runs|
  {
    AttributeHeaderBytes(a.header) + if a.data.Resident? then ResidentBytes(a.data.content) else NonResidentBytes(a.data)
  }

  function Padding(n: nat): (k: nat)
    ensures k < 8 && (n + k) % 8 == 0
  {
    (8 - n % 8) % 8
  }

  function EncodeAttribute(a: Attribute): (s: seq<byte>)
    ensures |s| == |Unpadded(a)| + Padding(|Unpadded(a)|)
  {
    Unpadded(a) + Zeros(Padding(|Unpadded(a)|))
  }

  function HeaderBytes(h: RecordHeader): (s: seq<byte>)
    ensures |s| == 42
  {
    h.signature + LeBytes(h.updateSequenceOffset, 2) + LeBytes(h.updateSequenceSize, 2)
    + LeBytes(h.logSequenceNumber, 8) + LeBytes(h.sequenceNumber, 2) + LeBytes(h.hardLinkCount, 2)
    + LeBytes(h.firstAttribute, 2) + LeBytes(h.flags, 2) + LeBytes(h.bytesInUse, 4)
    + LeBytes(h.bytesAllocated, 4) + LeBytes(h.baseRecord, 8) + LeBytes(h.nextAttributeId, 2)
  }

  const END_MARKER: u32 := 0xFFFF_FFFF

  function PutAttributes(buf: seq<byte>, offset: nat, attributes: seq<Attribute>): (r: Outcome<seq<byte>>)
    ensures r.Ok? ==> |r.value| == |buf|
    decreases |attributes|
  {
    if attributes == [] then
      if offset + 4 > |buf| then Panic else Ok(Patched(buf, offset, LeBytes(END_MARKER, 4)))
    else
      var chunk := EncodeAttribute(attributes[0]);
      if offset + |chunk| > |buf| then Panic
      else PutAttributes(Patched(buf, offset, chunk), offset + |chunk|, attributes[1..])
  }

  /** MftRecord::serialize. */
  function Encode(r: Record): (o: Outcome<seq<byte>>)
    ensures o.Ok? ==> |o.value| == RECORD_SIZE
  {
    PutAttributes(HeaderBytes(r.header) + Zeros(RECORD_SIZE - 42), r.header.firstAttribute, r.attributes)
  }

  // ---------------------------------------------------------------------
  // Decoding

  function DecodeAttributeHeader(data: seq<byte>): (h: AttributeHeader)
    requires |data| >= 16
  {
    AttributeHeader(ReadU32(data, 0), ReadU32(data, 4), data[8] != 0, data[9],
                    ReadU16(data, 10), ReadU16(data, 12), ReadU16(data, 14))
  }

  /** Attribute::deserialize. */
  function DecodeAttribute(data: seq<byte>): (r: Outcome<Attribute>)
    ensures r.Ok? ==> |data| >= 16 && r.value.header == DecodeAttributeHeader(data)
    ensures r.Ok? && r.value.data.NonResident? ==> r.value.data.runs == []
  {
    if |data| < 16 then InvalidParameter
    else
      var header := DecodeAttributeHeader(data);
      if header.nonResident then
        if |data| < 56 then Panic
        else Ok(Attribute(header, NonResident([], ReadU64(data, 32), ReadU64(data, 40), ReadU64(data, 48))))
      else if |data| < 22 then Panic
      else
        var size := ReadU32(data, 16);
        var offset := ReadU16(data, 20);
        if offset + size > |data| then Panic
        else Ok(Attribute(header, Resident(data[offset..offset + size])))
  }

  /** The attribute loop; an attribute of length zero would be read again for ever. */
  function DecodeAttributes(data: seq<byte>, offset: nat, bytesInUse: nat): (r: Outcome<seq<Attribute>>)
    decreases bytesInUse - offset
  {
    if offset >= bytesInUse then Ok([])
    else if offset + 4 > |data| then Panic
    else if ReadU32(data, offset) == END_MARKER then Ok([])
    else match DecodeAttribute(data[offset..])
      case InvalidParameter => InvalidParameter
      case DriveError => DriveError
      case Panic => Panic
      case Endless => Endless
      case Ok(a) =>
        if a.header.length == 0 then Endless
        else match DecodeAttributes(data, offset + a.header.length, bytesInUse)
          case Ok(rest) => Ok([a] + rest)
          case other => other
  }

  function DecodeHeader(data: seq<byte>): (h: RecordHeader)
    requires |data| >= 42
  {
    RecordHeader(data[..4], ReadU16(data, 4), ReadU16(data, 6), ReadU64(data, 8), ReadU16(data, 16), ReadU16(data, 18),
                 ReadU16(data, 20), ReadU16(data, 22), ReadU32(data, 24), ReadU32(data, 28), ReadU64(data, 32),
                 ReadU16(data, 40))
  }

  /** MftRecordHeader::is_valid. */
  predicate IsValid(h: RecordHeader) {
    h.signature == SIGNATURE && h.bytesInUse <= h.bytesAllocated && h.bytesAllocated == RECORD_SIZE
  }

  /** MftRecord::deserialize. */
  function Decode(data: seq<byte>, number: u64): (r: Outcome<Record>) {
    if |data| < RECORD_SIZE then InvalidParameter
    else
      var header := DecodeHeader(data);
      if !IsValid(header) then InvalidParameter
      else match DecodeAttributes(data, header.firstAttribute, header.bytesInUse)
        case Ok(attributes) => Ok(Record(header, attributes, number))
        case InvalidParameter => InvalidParameter
        case DriveError => DriveError
        case Panic => Panic
        case Endless => Endless
  }
}
