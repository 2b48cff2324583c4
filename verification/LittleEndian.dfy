/** Records of 16-bit and 32-bit little-endian fields. */
module LittleEndian {
  import opened Utf8

  type u16 = n: nat | n < 0x1_0000
  type u32 = n: nat | n < 0x1_0000_0000

  /** The program's narrowing casts: only the low bits stay. */
  function AsU16(n: nat): (r: u16)
    ensures n < 0x1_0000 ==> r == n
  {
    if n < 0x1_0000 then n else n % 0x1_0000
  }

  function AsU32(n: nat): (r: u32)
    ensures n < 0x1_0000_0000 ==> r == n
  {
    if n < 0x1_0000_0000 then n else n % 0x1_0000_0000
  }

  datatype Fields = Done | Short(short: u16, rest: Fields) | Long(long: u32, rest: Fields)

  function PutShort(n: u16): (b: seq<byte>)
    ensures |b| == 2
  {
    [n % 256, n / 256]
  }

  function PutLong(n: u32): (b: seq<byte>)
    ensures |b| == 4
  {
    PutShort(n % 0x1_0000) + PutShort(n / 0x1_0000)
  }

  function GetShort(b: seq<byte>): (n: u16)
    requires |b| == 2
  {
    b[0] as nat + 256 * b[1] as nat
  }

  function GetLong(b: seq<byte>): (n: u32)
    requires |b| == 4
  {
    GetShort(b[..2]) + 0x1_0000 * GetShort(b[2..])
  }

  function Size(f: Fields): nat {
    match f
    case Done => 0
    case Short(_, rest) => 2 + Size(rest)
    case Long(_, rest) => 4 + Size(rest)
  }

  function Put(f: Fields): (b: seq<byte>)
    ensures |b| == Size(f)
  {
    match f
    case Done => []
    case Short(n, rest) => PutShort(n) + Put(rest)
    case Long(n, rest) => PutLong(n) + Put(rest)
  }

  /** The record of the same shape that fills the bytes. */
  function Get(shape: Fields, b: seq<byte>): (f: Fields)
    requires |b| == Size(shape)
    ensures SameShape(shape, f)
    decreases shape
  {
    match shape
    case Done => Done
    case Short(_, rest) => Short(GetShort(b[..2]), Get(rest, b[2..]))
    case Long(_, rest) => Long(GetLong(b[..4]), Get(rest, b[4..]))
  }

  predicate SameShape(f: Fields, g: Fields) {
    match f
    case Done => g.Done?
    case Short(_, rest) => g.Short? && SameShape(rest, g.rest)
    case Long(_, rest) => g.Long? && SameShape(rest, g.rest)
  }

  lemma ShortBack(n: u16)
    ensures GetShort(PutShort(n)) == n
  {
  }

  lemma LongBack(n: u32)
    ensures GetLong(PutLong(n)) == n
  {
    ShortBack(n % 0x1_0000);
    ShortBack(n / 0x1_0000);
    assert PutLong(n)[..2] == PutShort(n % 0x1_0000) && PutLong(n)[2..] == PutShort(n / 0x1_0000);
  }

  /** A record comes back unchanged. */
  lemma {:induction false} RecordBack(shape: Fields, f: Fields)
    requires SameShape(shape, f)
    ensures Size(shape) == Size(f) && Get(shape, Put(f)) == f
  {
    match f
    case Done =>
    case Short(n, rest) =>
      ShortBack(n);
      RecordBack(shape.rest, rest);
      assert Put(f)[..2] == PutShort(n) && Put(f)[2..] == Put(rest);
    case Long(n, rest) =>
      LongBack(n);
      RecordBack(shape.rest, rest);
      assert Put(f)[..4] == PutLong(n) && Put(f)[4..] == Put(rest);
  }
}
