/** Fixed-width little-endian numbers: from_le_bytes and to_le_bytes. */
module LittleEndian {
  import opened Bytes
  import opened Numbers

  function LeValue(s: seq<byte>): (n: nat) {
    if s == [] then 0 else s[0] + 256 * LeValue(s[1..])
  }

  /** A little-endian number of `width` bytes at an offset. */
  function ReadLe(bytes: seq<byte>, offset: nat, width: nat): (n: nat)
    requires offset + width <= |bytes|
  {
    LeValue(bytes[offset..offset + width])
  }

  /** The low `width` bytes of a number. */
  function LeBytes(n: nat, width: nat): (s: seq<byte>)
    ensures |s| == width
  {
    if width == 0 then [] else [n % 256] + LeBytes(n / 256, width - 1)
  }

  /** How many values a field of `width` bytes holds. */
  function Limit(width: nat): (n: nat)
    ensures n > 0
  {
    if width == 0 then 1 else 256 * Limit(width - 1)
  }

  lemma Limits()
    ensures Limit(1) == 0x100
    ensures Limit(2) == 0x1_0000
    ensures Limit(4) == 0x1_0000_0000
    ensures Limit(8) == 0x1_0000_0000_0000_0000
  {
    assert Limit(3) == 0x100_0000;
    assert Limit(5) == 0x100_0000_0000;
    assert Limit(6) == 0x1_0000_0000_0000;
    assert Limit(7) == 0x100_0000_0000_0000;
  }

  /** Reading back what was written: the number, as far as the width holds it. */
  lemma {:induction false} LeRoundTrip(n: nat, width: nat)
    requires n < Limit(width)
    ensures LeValue(LeBytes(n, width)) == n
  {
    if width > 0 {
      LeRoundTrip(n / 256, width - 1);
      assert LeBytes(n, width)[1..] == LeBytes(n / 256, width - 1);
    }
  }

  /** And the other way round: the bytes of a number read are those read. */
  lemma {:induction false} LeReadBack(s: seq<byte>)
    ensures LeBytes(LeValue(s), |s|) == s
  {
    if s != [] {
      LeReadBack(s[1..]);
      assert s == [s[0]] + s[1..];
      Digits(s[0], LeValue(s[1..]));
    }
  }

  lemma Digits(low: byte, high: nat)
    ensures (low + 256 * high) % 256 == low && (low + 256 * high) / 256 == high
  {
  }

  lemma {:induction false} LeBounded(s: seq<byte>)
    ensures LeValue(s) < Limit(|s|)
  {
    if s != [] {
      LeBounded(s[1..]);
    }
  }

  /** The number read keeps the lowest byte. */
  lemma LowByte(bytes: seq<byte>, offset: nat, width: nat)
    requires width > 0 && offset + width <= |bytes|
    ensures ReadLe(bytes, offset, width) % 256 == bytes[offset]
  {
    assert bytes[offset..offset + width][0] == bytes[offset];
  }

  function ReadU16(bytes: seq<byte>, offset: nat): (n: u16)
    requires offset + 2 <= |bytes|
  {
    LeBounded(bytes[offset..offset + 2]);
    Limits();
    ReadLe(bytes, offset, 2)
  }

  function ReadU32(bytes: seq<byte>, offset: nat): (n: u32)
    requires offset + 4 <= |bytes|
  {
    LeBounded(bytes[offset..offset + 4]);
    Limits();
    ReadLe(bytes, offset, 4)
  }

  function ReadU64(bytes: seq<byte>, offset: nat): (n: u64)
    requires offset + 8 <= |bytes|
  {
    LeBounded(bytes[offset..offset + 8]);
    Limits();
    ReadLe(bytes, offset, 8)
  }

  lemma FieldBytes(data: seq<byte>, prefix: seq<byte>, field: seq<byte>)
    requires prefix + field <= data
    ensures prefix <= data && |prefix| + |field| <= |data|
    ensures data[|prefix|..|prefix| + |field|] == field
  {
    var whole := prefix + field;
    assert prefix == whole[..|prefix|] == data[..|prefix|];
    assert field == whole[|prefix|..];
  }

  /** A field written right after `prefix` is read back there. */
  lemma Field16(data: seq<byte>, prefix: seq<byte>, n: u16)
    requires prefix + LeBytes(n, 2) <= data
    ensures prefix <= data && |prefix| + 2 <= |data| && ReadU16(data, |prefix|) == n
  {
    FieldBytes(data, prefix, LeBytes(n, 2));
    Limits();
    LeRoundTrip(n, 2);
  }

  lemma Field32(data: seq<byte>, prefix: seq<byte>, n: u32)
    requires prefix + LeBytes(n, 4) <= data
    ensures prefix <= data && |prefix| + 4 <= |data| && ReadU32(data, |prefix|) == n
  {
    FieldBytes(data, prefix, LeBytes(n, 4));
    Limits();
    LeRoundTrip(n, 4);
  }

  lemma Field64(data: seq<byte>, prefix: seq<byte>, n: u64)
    requires prefix + LeBytes(n, 8) <= data
    ensures prefix <= data && |prefix| + 8 <= |data| && ReadU64(data, |prefix|) == n
  {
    FieldBytes(data, prefix, LeBytes(n, 8));
    Limits();
    LeRoundTrip(n, 8);
  }
}
