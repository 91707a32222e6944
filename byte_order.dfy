/** Fixed-width unsigned integers and network (big-endian) byte order, as
    ns-3's Buffer::Iterator writes them with WriteU8 / WriteHtonU16 /
    WriteHtonU32 and reads them back with ReadU8 / ReadNtohU16 / ReadNtohU32.
    Only the byte layout is modelled, not the iterator. */
module ByteOrder {

  type byte = x: int | 0 <= x < 0x100
  type u16 = x: int | 0 <= x < 0x1_0000
  type u32 = x: int | 0 <= x < 0x1_0000_0000

  /** Implicit C++ conversion of an integer to uint16_t (keeps the low 16 bits). */
  function ToU16(x: int): (r: u16)
    ensures 0 <= x < 0x1_0000 ==> r == x
  {
    x % 0x1_0000
  }

  /** Implicit C++ conversion of an integer to uint32_t (keeps the low 32 bits). */
  function ToU32(x: int): (r: u32)
    ensures 0 <= x < 0x1_0000_0000 ==> r == x
  {
    x % 0x1_0000_0000
  }

  /** WriteHtonU16: the two bytes of x, most significant first. */
  function HtonU16(x: u16): (r: seq<byte>)
    ensures |r| == 2
  {
    [x / 0x100, x % 0x100]
  }

  /** ReadNtohU16: the value of the first two bytes of s, most significant first. */
  function NtohU16(s: seq<byte>): u16
    requires |s| >= 2
  {
    s[0] as int * 0x100 + s[1]
  }

  /** WriteHtonU32: the four bytes of x, most significant first. */
  function HtonU32(x: u32): (r: seq<byte>)
    ensures |r| == 4
  {
    HtonU16(x / 0x1_0000) + HtonU16(x % 0x1_0000)
  }

  /** ReadNtohU32: the value of the first four bytes of s, most significant first. */
  function NtohU32(s: seq<byte>): u32
    requires |s| >= 4
  {
    NtohU16(s) as int * 0x1_0000 + NtohU16(s[2..])
  }

  /** The bytes WriteHtonU16 writes are x in base 256, most significant first. */
  lemma HtonU16Value(x: u16)
    ensures HtonU16(x)[0] as int * 0x100 + HtonU16(x)[1] == x
  {
  }

  /** The bytes WriteHtonU32 writes are x in base 256, most significant first. */
  lemma HtonU32Value(x: u32)
    ensures var r := HtonU32(x);
      r[0] as int * 0x100_0000 + r[1] as int * 0x1_0000 + r[2] as int * 0x100 + r[3] == x
  {
    HtonU16Value(x / 0x1_0000);
    HtonU16Value(x % 0x1_0000);
  }

  lemma NtohHtonU16(x: u16, rest: seq<byte>)
    ensures NtohU16(HtonU16(x) + rest) == x
  {
  }

  lemma HtonNtohU16(s: seq<byte>)
    requires |s| >= 2
    ensures HtonU16(NtohU16(s)) == s[..2]
  {
  }

  /** Reading back what WriteHtonU32 wrote gives the value, whatever follows it. */
  lemma NtohHtonU32(x: u32, rest: seq<byte>)
    ensures NtohU32(HtonU32(x) + rest) == x
  {
    var s := HtonU32(x) + rest;
    NtohHtonU16(x / 0x1_0000, HtonU16(x % 0x1_0000) + rest);
    assert s[2..] == HtonU16(x % 0x1_0000) + rest;
    NtohHtonU16(x % 0x1_0000, rest);
  }

  /** Every four bytes are the big-endian encoding of exactly one u32. */
  lemma HtonNtohU32(s: seq<byte>)
    requires |s| >= 4
    ensures HtonU32(NtohU32(s)) == s[..4]
  {
    var hi, lo := NtohU16(s), NtohU16(s[2..]);
    assert NtohU32(s) / 0x1_0000 == hi;
    assert NtohU32(s) % 0x1_0000 == lo;
    HtonNtohU16(s);
    HtonNtohU16(s[2..]);
  }
}
