/** The master file table on a drive, read and written a cluster at a time (crates/galleon2/src/mft.rs). */
module MftStores {
  import opened Bytes
  import opened Sequences
  import opened MftRecords
  import opened MftCodec
  import opened MftRoundTrip
  import opened Numbers

  const BUFFER_SIZE: nat := 4096

  /** Where the table is: its first cluster and the cluster size. */
  datatype Table = Table(startCluster: u64, clusterSize: u32) {

    function RecordsPerCluster(): (n: nat) {
      clusterSize / 1024
    }

    function SectorsPerCluster(): (n: nat) {
      if clusterSize / 512 > 1 then clusterSize / 512 else 1
    }

    /** The first sector of a record's cluster: 64-bit arithmetic, then a cast to 32 bits. */
    function Sector(number: u64): (sector: u32)
      requires RecordsPerCluster() > 0
    {
      (startCluster + number / RecordsPerCluster()) % WORD_LIMIT * SectorsPerCluster() % WORD_LIMIT % 0x1_0000_0000
    }

    /** The bytes of a cluster before a record. */
    function Within(number: u64): (offset: nat)
      requires RecordsPerCluster() > 0
      ensures offset + RECORD_SIZE <= 512 * SectorsPerCluster()
    {
      assert RecordsPerCluster() * 2 <= SectorsPerCluster();
      assert number % RecordsPerCluster() < RecordsPerCluster();
      1024 * (number % RecordsPerCluster())
    }

    /** The first byte of a record on the drive. */
    function Address(number: u64): (a: nat)
      requires RecordsPerCluster() > 0
    {
      512 * Sector(number) + Within(number)
    }

    /** Whether the drive has the record's whole cluster. */
    predicate OnDrive(size: nat, number: u64)
      requires RecordsPerCluster() > 0
    {
      512 * (Sector(number) + SectorsPerCluster()) <= size
    }

    /** The three cluster sizes in use. */
    predicate Usual() {
      clusterSize == 1024 || clusterSize == 2048 || clusterSize == 4096
    }
  }

  /** read_record. */
  function ReadRecord(t: Table, drive: seq<byte>, number: u64): (r: Outcome<Record>) {
    if t.RecordsPerCluster() == 0 then InvalidParameter
    else if t.clusterSize > BUFFER_SIZE then Panic
    else if !t.OnDrive(|drive|, number) then DriveError
    else Decode(drive[t.Address(number)..t.Address(number) + RECORD_SIZE], number)
  }

  /** write_record: the drive afterwards. */
  function WriteRecord(t: Table, drive: seq<byte>, record: Record): (r: Outcome<seq<byte>>)
    ensures r.Ok? ==> |r.value| == |drive|
  {
    if t.RecordsPerCluster() == 0 then InvalidParameter
    else if t.clusterSize > BUFFER_SIZE then Panic
    else if !t.OnDrive(|drive|, record.number) then DriveError
    else match Encode(record)
      case Ok(bytes) => Ok(Patched(drive, t.Address(record.number), bytes))
      case InvalidParameter => InvalidParameter
      case DriveError => DriveError
      case Panic => Panic
      case Endless => Endless
  }

  /**
   What is refused: clusters smaller than a record are an error, clusters larger
   than the buffer of 4096 bytes panic, and a cluster that is not all on the
   drive is a drive error; nothing else is refused before the record is looked at.
   */
  lemma StoreRefuses(t: Table, drive: seq<byte>, record: Record)
    ensures var read, write := ReadRecord(t, drive, record.number), WriteRecord(t, drive, record);
            && (t.clusterSize < 1024 ==> read == InvalidParameter && write == InvalidParameter)
            && (t.clusterSize > 4096 ==> read == Panic && write == Panic)
            && (1024 <= t.clusterSize <= 4096 ==>
                  t.RecordsPerCluster() > 0 &&
                  var end := 512 * t.Sector(record.number) + t.clusterSize / 512 * 512;
                  && (end > |drive| ==> read == DriveError && write == DriveError)
                  && (end <= |drive| && Encode(record).Ok? ==> write.Ok?)
                  && (end <= |drive| && Encode(record).Panic? ==> write == Panic))
  {
    hide Decode, Encode, Table.Sector, Patched;
  }

  // ---------------------------------------------------------------------
  // Addresses

  /** How many record slots the 32-bit sector number can tell apart. */
  const SLOTS: nat := 0x8000_0000

  lemma Wrap(x: nat, k: nat)
    requires k == 2 || k == 4 || k == 8
    ensures x % WORD_LIMIT * k % WORD_LIMIT % 0x1_0000_0000 == x * k % 0x1_0000_0000
  {
    var y, q := x % WORD_LIMIT, x / WORD_LIMIT;
    assert x * k == y * k + 0x1_0000_0000 * (0x1_0000_0000 * (q * k));
    Reduce(y * k, 0x1_0000_0000 * (q * k));
    var z, p := y * k % WORD_LIMIT, y * k / WORD_LIMIT;
    assert y * k == z + 0x1_0000_0000 * (0x1_0000_0000 * p);
    Reduce(z, 0x1_0000_0000 * p);
  }

  lemma Reduce(z: nat, p: nat)
    ensures (z + 0x1_0000_0000 * p) % 0x1_0000_0000 == z % 0x1_0000_0000
  {
  }

  lemma Remainder32(q: nat, z: nat)
    requires z < 0x1_0000_0000
    ensures (0x1_0000_0000 * q + z) % 0x1_0000_0000 == z
  {
  }

  lemma Remainder31(q: nat, z: nat)
    requires z < SLOTS
    ensures (SLOTS * q + z) % SLOTS == z
  {
  }

  lemma Join1(x: nat)
    ensures 512 * (x * 2 % 0x1_0000_0000) == 1024 * (x % SLOTS)
  {
    var y, q := x % SLOTS, x / SLOTS;
    assert x * 2 == 0x1_0000_0000 * q + 2 * y;
    Remainder32(q, 2 * y);
  }

  lemma Join2(x: nat, r: nat)
    requires r < 2
    ensures 512 * (x * 4 % 0x1_0000_0000) + 1024 * r == 1024 * ((2 * x + r) % SLOTS)
  {
    var y, q := x % 0x4000_0000, x / 0x4000_0000;
    assert x * 4 == 0x1_0000_0000 * q + 4 * y;
    Remainder32(q, 4 * y);
    assert 2 * x + r == SLOTS * q + (2 * y + r);
    Remainder31(q, 2 * y + r);
  }

  lemma Join4(x: nat, r: nat)
    requires r < 4
    ensures 512 * (x * 8 % 0x1_0000_0000) + 1024 * r == 1024 * ((4 * x + r) % SLOTS)
  {
    var y, q := x % 0x2000_0000, x / 0x2000_0000;
    assert x * 8 == 0x1_0000_0000 * q + 8 * y;
    Remainder32(q, 8 * y);
    assert 4 * x + r == SLOTS * q + (4 * y + r);
    Remainder31(q, 4 * y + r);
  }

  /** The address in terms of the cluster number, before the wrap of 64-bit arithmetic is taken out. */
  lemma AddressForm(t: Table, number: u64, k: nat)
    requires t.Usual() && k == t.RecordsPerCluster()
    ensures t.Address(number)
            == 512 * ((t.startCluster + number / k) * (2 * k) % 0x1_0000_0000) + 1024 * (number % k)
  {
    assert k == 1 || k == 2 || k == 4;
    assert t.SectorsPerCluster() == 2 * k;
    Wrap(t.startCluster + number / k, 2 * k);
  }

  /** For the usual cluster sizes the records lie one after another, up to the wrap of the sector number. */
  lemma AddressExact(t: Table, number: u64)
    requires t.Usual()
    ensures t.Address(number) == RECORD_SIZE * ((t.RecordsPerCluster() * t.startCluster + number) % SLOTS)
  {
    hide Table.Address;
    var k := t.RecordsPerCluster();
    var x := t.startCluster + number / k;
    AddressForm(t, number, k);
    if k == 1 {
      Join1(x);
    } else if k == 2 {
      Join2(x, number % 2);
      assert 2 * x + number % 2 == 2 * t.startCluster + number;
    } else {
      Join4(x, number % 4);
      assert 4 * x + number % 4 == 4 * t.startCluster + number;
    }
  }

  lemma SameSlot(base: nat, n: nat, m: nat)
    ensures (base + n) % SLOTS == (base + m) % SLOTS <==> n % SLOTS == m % SLOTS
  {
    var b, p, q := base % SLOTS, n % SLOTS, m % SLOTS;
    assert base + n == SLOTS * (base / SLOTS + n / SLOTS) + (b + p);
    assert base + m == SLOTS * (base / SLOTS + m / SLOTS) + (b + q);
    ReduceSlot(b + p, base / SLOTS + n / SLOTS);
    ReduceSlot(b + q, base / SLOTS + m / SLOTS);
  }

  lemma ReduceSlot(z: nat, p: nat)
    ensures (SLOTS * p + z) % SLOTS == z % SLOTS
  {
  }

  /** Two record numbers name the same bytes exactly when they agree modulo 2^31, and disjoint bytes otherwise. */
  lemma Slots(t: Table, n: u64, m: u64)
    requires t.Usual()
    ensures t.Address(n) == t.Address(m) <==> n % SLOTS == m % SLOTS
    ensures t.Address(n) != t.Address(m) ==>
              t.Address(n) + RECORD_SIZE <= t.Address(m) || t.Address(m) + RECORD_SIZE <= t.Address(n)
  {
    hide Table.Address;
    AddressExact(t, n);
    AddressExact(t, m);
    SameSlot(t.RecordsPerCluster() * t.startCluster, n, m);
  }

  // ---------------------------------------------------------------------
  // The table as an array of records

  /** The bytes a record number names. */
  function Slot(t: Table, drive: seq<byte>, number: u64): (s: seq<byte>)
    requires t.RecordsPerCluster() > 0 && t.OnDrive(|drive|, number)
  {
    drive[t.Address(number)..t.Address(number) + RECORD_SIZE]
  }

  /** A write sets its own slot and leaves every other slot as it was; slots are record numbers modulo 2^31. */
  lemma WriteOneSlot(t: Table, drive: seq<byte>, record: Record, after: seq<byte>, number: u64)
    requires t.Usual() && WriteRecord(t, drive, record) == Ok(after) && t.OnDrive(|drive|, number)
    ensures Slot(t, after, number)
            == if number % SLOTS == record.number % SLOTS then Encode(record).value else Slot(t, drive, number)
  {
    hide Encode, Patched, Table.Address, Table.OnDrive;
    var bytes := Encode(record).value;
    Slots(t, record.number, number);
    AddressOnDrive(t, |drive|, record.number);
    AddressOnDrive(t, |drive|, number);
    if number % SLOTS == record.number % SLOTS {
      PatchedHere(drive, t.Address(record.number), bytes);
    } else {
      var at := t.Address(number);
      PatchedElsewhere(drive, t.Address(record.number), bytes, at, at + RECORD_SIZE);
    }
  }

  lemma AddressOnDrive(t: Table, size: nat, number: u64)
    requires t.RecordsPerCluster() > 0 && t.OnDrive(size, number)
    ensures t.Address(number) + RECORD_SIZE <= size
  {
    hide Table.Sector, Table.Within;
  }

  /** Any number of writes, one after the other. */
  function WriteAll(t: Table, drive: seq<byte>, records: seq<Record>): (r: Outcome<seq<byte>>)
    ensures r.Ok? ==> |r.value| == |drive|
  {
    if records == [] then Ok(drive)
    else match WriteAll(t, drive, records[..|records| - 1])
      case Ok(before) => WriteRecord(t, before, records[|records| - 1])
      case other => other
  }

  /** The last record written to a slot, if any. */
  predicate LastIn(records: seq<Record>, i: nat) {
    && i < |records|
    && forall j :: i < j < |records| ==> records[j].number % SLOTS != records[i].number % SLOTS
  }

  lemma {:induction false} LastWriteStays(t: Table, drive: seq<byte>, records: seq<Record>, after: seq<byte>, i: nat)
    requires t.Usual() && WriteAll(t, drive, records) == Ok(after) && LastIn(records, i)
    ensures Encode(records[i]).Ok? && t.OnDrive(|after|, records[i].number)
    ensures Slot(t, after, records[i].number) == Encode(records[i]).value
    decreases |records|
  {
    hide Encode, Patched, Table.Address, Table.OnDrive, Slot;
    var n := |records| - 1;
    var before := WriteAll(t, drive, records[..n]).value;
    if i < n {
      LastWriteStays(t, drive, records[..n], before, i);
    }
    WriteOneSlot(t, before, records[n], after, records[i].number);
  }

  /**
   * The table is an array of records: after any run of successful writes, reading a record number whose
   * slot was last written under that number gives that record, exactly when all its attributes are plain.
   */
  lemma ReadsLastWrite(t: Table, drive: seq<byte>, records: seq<Record>, after: seq<byte>, i: nat)
    requires t.Usual() && WriteAll(t, drive, records) == Ok(after) && LastIn(records, i) && Built(records[i])
    ensures ReadRecord(t, after, records[i].number) == Ok(records[i]) <==> AllPlain(records[i].attributes)
  {
    hide Encode, Decode, Patched, Table.Address, Table.OnDrive, Built, WriteAll, AllPlain;
    LastWriteStays(t, drive, records, after, i);
    RecordRoundTrip(records[i], Encode(records[i]).value);
  }

  lemma {:induction false} UntouchedStays(
      t: Table, drive: seq<byte>, records: seq<Record>, after: seq<byte>, number: u64)
    requires t.Usual() && WriteAll(t, drive, records) == Ok(after) && t.OnDrive(|drive|, number)
    requires forall j :: 0 <= j < |records| ==> records[j].number % SLOTS != number % SLOTS
    ensures Slot(t, after, number) == Slot(t, drive, number)
    ensures ReadRecord(t, after, number) == ReadRecord(t, drive, number)
    decreases |records|
  {
    hide Encode, Decode, Patched, Table.Address, Table.OnDrive;
    if records != [] {
      var n := |records| - 1;
      var before := WriteAll(t, drive, records[..n]).value;
      UntouchedStays(t, drive, records[..n], before, number);
      WriteOneSlot(t, before, records[n], after, number);
    }
  }

  // ---------------------------------------------------------------------
  // The manager

  class MftManager {
    const table: Table
    const drive: array<byte>

    constructor (table: Table, drive: array<byte>)
      ensures this.table == table && this.drive == drive
    {
      this.table := table;
      this.drive := drive;
    }

    /** ide_read_sectors, a drive error where the drive ends. */
    method ReadSectors(count: nat, sector: nat, buf: array<byte>) returns (ok: bool)
      requires 512 * count <= buf.Length && buf != drive
      modifies buf
      ensures ok <==> 512 * (sector + count) <= drive.Length
      ensures ok ==> buf[..512 * count] == drive[512 * sector..512 * (sector + count)]
    {
      ok := 512 * (sector + count) <= drive.Length;
      if ok {
        forall i | 0 <= i < 512 * count {
          buf[i] := drive[512 * sector + i];
        }
      }
    }

    /** ide_write_sectors, likewise. */
    method WriteSectors(count: nat, sector: nat, buf: array<byte>) returns (ok: bool)
      requires 512 * count <= buf.Length && buf != drive
      modifies drive
      ensures ok <==> 512 * (sector + count) <= drive.Length
      ensures !ok ==> drive[..] == old(drive[..])
      ensures ok ==> drive[..] == Patched(old(drive[..]), 512 * sector, old(buf[..512 * count]))
    {
      ok := 512 * (sector + count) <= drive.Length;
      if ok {
        forall i | 0 <= i < 512 * count {
          drive[512 * sector + i] := buf[i];
        }
      }
    }

    method Read(number: u64) returns (r: Outcome<Record>)
      ensures r == ReadRecord(table, drive[..], number)
    {
      hide Decode, Table.Sector, Table.SectorsPerCluster, Table.Within;
      if table.RecordsPerCluster() == 0 {
        return InvalidParameter;
      }
      if table.clusterSize > BUFFER_SIZE {
        return Panic;
      }
      var count := table.SectorsPerCluster();
      var sector: nat := table.Sector(number);
      var offset := table.Within(number);
      BufferSuffices(table);
      var buf := new byte[BUFFER_SIZE](i => 0);
      var ok := ReadSectors(count, sector, buf);
      if !ok {
        return DriveError;
      }
      var cluster := buf[..512 * count];
      SliceOfSlice(drive[..], 512 * sector, 512 * (sector + count), offset, RECORD_SIZE);
      r := Deserialize(cluster[offset..offset + RECORD_SIZE], number);
    }

    /** Read-modify-write of the record's cluster changes the record's bytes and nothing else. */
    method Write(record: MftRecord) returns (r: Outcome<()>)
      modifies drive
      ensures match WriteRecord(table, old(drive[..]), record.Value())
              case Ok(after) => r == Ok(()) && drive[..] == after
              case InvalidParameter => r == InvalidParameter && drive[..] == old(drive[..])
              case DriveError => r == DriveError && drive[..] == old(drive[..])
              case Panic => r == Panic && drive[..] == old(drive[..])
              case Endless => r == Endless && drive[..] == old(drive[..])
    {
      hide Encode, Patched, Table.Sector, Table.SectorsPerCluster, Table.Within;
      if table.RecordsPerCluster() == 0 {
        return InvalidParameter;
      }
      if table.clusterSize > BUFFER_SIZE {
        return Panic;
      }
      var number := record.number;
      var count := table.SectorsPerCluster();
      var sector: nat := table.Sector(number);
      var offset := table.Within(number);
      BufferSuffices(table);
      var buf := new byte[BUFFER_SIZE](i => 0);
      var ok := ReadSectors(count, sector, buf);
      if !ok {
        return DriveError;
      }
      ghost var cluster := buf[..512 * count];
      var encoded := record.Serialize();
      match encoded {
        case Ok(bytes) =>
          ghost var whole := buf[..];
          Put(buf, offset, bytes);
          PatchPrefix(whole, offset, bytes, 512 * count);
          ghost var was := drive[..];
          ok := WriteSectors(count, sector, buf);
          PatchWithin(was, 512 * sector, 512 * (sector + count), offset, bytes);
          return Ok(());
        case InvalidParameter => return InvalidParameter;
        case DriveError => return DriveError;
        case Panic => return Panic;
        case Endless => return Endless;
      }
    }
  }

  lemma BufferSuffices(t: Table)
    requires t.RecordsPerCluster() > 0 && t.clusterSize <= BUFFER_SIZE
    ensures 512 * t.SectorsPerCluster() <= BUFFER_SIZE
  {
  }

  lemma SliceOfSlice(d: seq<byte>, lo: nat, hi: nat, offset: nat, size: nat)
    requires lo <= hi <= |d| && lo + offset + size <= hi
    ensures d[lo..hi][offset..offset + size] == d[lo + offset..lo + offset + size]
  {
    var inner, outer := d[lo..hi][offset..offset + size], d[lo + offset..lo + offset + size];
    assert forall i :: 0 <= i < size ==> inner[i] == outer[i];
  }
}
