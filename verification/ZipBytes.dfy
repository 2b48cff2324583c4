/** The bytes of the three records, place by place (APPNOTE.TXT, sections 4.3.7, 4.3.12 and
    4.3.16). */
module ZipBytes {
  import opened ArchiveNames
  import opened Libraries
  import opened LittleEndian
  import opened Utf8
  import opened ZipRecords

  function ShortAt(b: seq<byte>, i: nat): nat
    requires i + 2 <= |b|
  {
    b[i] as nat + 256 * b[i + 1] as nat
  }

  function LongAt(b: seq<byte>, i: nat): nat
    requires i + 4 <= |b|
  {
    b[i] as nat + 0x100 * b[i + 1] as nat + 0x1_0000 * b[i + 2] as nat + 0x100_0000 * b[i + 3] as nat
  }

  lemma TakeShort(b: seq<byte>, i: nat, f: Fields, tail: seq<byte>)
    requires f.Short? && i <= |b| && b[i..] == Put(f) + tail
    ensures i + 2 <= |b| && ShortAt(b, i) == f.short && b[i + 2..] == Put(f.rest) + tail
  {
    var head := PutShort(f.short);
    assert b[i..] == head + (Put(f.rest) + tail);
    assert b[i] == b[i..][0] == head[0] && b[i + 1] == b[i..][1] == head[1];
    assert b[i + 2..] == b[i..][2..];
    assert f.short == f.short % 256 + 256 * (f.short / 256);
  }

  lemma LongDigits(n: u32)
    ensures LongAt(PutLong(n), 0) == n
  {
    var low, high := n % 0x1_0000, n / 0x1_0000;
    assert PutLong(n) == [low % 256, low / 256, high % 256, high / 256];
    assert low == low % 256 + 256 * (low / 256) && high == high % 256 + 256 * (high / 256);
  }

  lemma TakeLong(b: seq<byte>, i: nat, f: Fields, tail: seq<byte>)
    requires f.Long? && i <= |b| && b[i..] == Put(f) + tail
    ensures i + 4 <= |b| && LongAt(b, i) == f.long && b[i + 4..] == Put(f.rest) + tail
  {
    var head := PutLong(f.long);
    assert b[i..] == head + (Put(f.rest) + tail);
    assert b[i..][..4] == head;
    LongDigits(f.long);
    assert forall j | 0 <= j < 4 :: b[i + j] == b[i..][j] == head[j];
    assert b[i + 1] == head[1] && b[i + 2] == head[2] && b[i + 3] == head[3];
    assert b[i + 4..] == b[i..][4..];
  }

  // ---- Names ----------------------------------------------------------------------

  predicate Low(bytes: seq<byte>) {
    forall b | b in bytes :: b < 0x80
  }

  lemma LowConcat(a: seq<byte>, b: seq<byte>)
    ensures Low(a + b) <==> Low(a) && Low(b)
  {
    assert forall x :: x in a + b <==> x in a || x in b;
  }

  lemma AsciiConcat(s: string, t: string)
    ensures Ascii(s + t) <==> Ascii(s) && Ascii(t)
  {
    assert forall c :: c in s + t <==> c in s || c in t;
  }

  lemma AsciiChar(c: char)
    ensures Low(EncodeChar(c)) <==> c as int < 0x80
    ensures Ascii([c]) <==> c as int < 0x80
  {
    assert EncodeChar(c)[0] in EncodeChar(c) && c in [c];
  }

  lemma {:induction false} AsciiBytes(s: string)
    ensures Low(Encode(s)) <==> Ascii(s)
  {
    if s != "" {
      AsciiBytes(s[1..]);
      AsciiChar(s[0]);
      LowConcat(EncodeChar(s[0]), Encode(s[1..]));
      AsciiConcat([s[0]], s[1..]);
      assert s == [s[0]] + s[1..];
    }
  }

  /** Bit 11 is set exactly when the path is not ASCII. */
  lemma FlagOfPath(e: Entry)
    ensures Flag(RawName(e)) == if Ascii(e.path) then 0 else 0x800
  {
    var name := if e.kind.Directory? then e.path + "/" else e.path;
    AsciiBytes(name);
    AsciiConcat(e.path, "/");
  }

  // ---- Records --------------------------------------------------------------------

  /** Signature, version 2.0, flag, no compression, the first day of 1980, checksum, sizes,
      name length and no extra field; then the name and the contents. */
  lemma LocalBytes(lib: Libraries, e: Entry)
    requires Small(lib, e)
    ensures var b, name := LocalRecord(lib, e), RawName(e);
            && |b| == 30 + |name| + |e.bytes|
            && LongAt(b, 0) == 0x04034b50 && ShortAt(b, 4) == 20
            && ShortAt(b, 6) == (if Ascii(e.path) then 0 else 0x800)
            && ShortAt(b, 8) == 0 && ShortAt(b, 10) == 0 && ShortAt(b, 12) == 33
            && LongAt(b, 14) == lib.crc(e.bytes) && LongAt(b, 18) == |e.bytes| && LongAt(b, 22) == |e.bytes|
            && ShortAt(b, 26) == |name| && ShortAt(b, 28) == 0
            && b[30..] == name + e.bytes
  {
    FlagOfPath(e);
    var b, l, tail := LocalRecord(lib, e), LocalOf(lib, e), RawName(e) + e.bytes;
    assert b == Put(LocalLayout(l)) + tail;
    LocalPlaces(b, l, tail);
    LocalValues(lib, e);
  }

  lemma LocalValues(lib: Libraries, e: Entry)
    requires Small(lib, e)
    ensures var l := LocalOf(lib, e);
            && l.signature == 0x04034b50 && l.needed == 20 && l.flag == Flag(RawName(e)) && l.compression == 0
            && l.time == 0 && l.date == 33 && l.crc == lib.crc(e.bytes) && l.stored == l.size == |e.bytes|
            && l.nameLength == |RawName(e)| && l.extraLength == 0
  {
  }

  lemma LocalPlaces(b: seq<byte>, l: Local, tail: seq<byte>)
    requires b == Put(LocalLayout(l)) + tail
    ensures |b| == 30 + |tail| && b[30..] == tail
    ensures LongAt(b, 0) == l.signature && ShortAt(b, 4) == l.needed && ShortAt(b, 6) == l.flag
    ensures ShortAt(b, 8) == l.compression && ShortAt(b, 10) == l.time && ShortAt(b, 12) == l.date
    ensures LongAt(b, 14) == l.crc && LongAt(b, 18) == l.stored && LongAt(b, 22) == l.size
    ensures ShortAt(b, 26) == l.nameLength && ShortAt(b, 28) == l.extraLength
  {
    var f := LocalLayout(l);
    assert b[0..] == b;
    TakeLong(b, 0, f, tail); f := f.rest;
    TakeShort(b, 4, f, tail); f := f.rest;
    TakeShort(b, 6, f, tail); f := f.rest;
    TakeShort(b, 8, f, tail); f := f.rest;
    TakeShort(b, 10, f, tail); f := f.rest;
    TakeShort(b, 12, f, tail); f := f.rest;
    TakeLong(b, 14, f, tail); f := f.rest;
    TakeLong(b, 18, f, tail); f := f.rest;
    TakeLong(b, 22, f, tail); f := f.rest;
    TakeShort(b, 26, f, tail); f := f.rest;
    TakeShort(b, 28, f, tail);
    assert Put(Done) + tail == tail;
  }

  /** Signature, made by Unix 2.0, needed 2.0, and what the local record says; no extra field,
      comment, disk or internal attributes; type and permissions; the place of the local
      record; then the name. */
  lemma CentralBytes(lib: Libraries, e: Entry, offset: nat)
    requires Small(lib, e) && offset < 0x1_0000_0000
    ensures var b, name := CentralRecord(lib, e, offset), RawName(e);
            && |b| == 46 + |name|
            && LongAt(b, 0) == 0x02014b50 && ShortAt(b, 4) == 0x0314 && ShortAt(b, 6) == 20
            && ShortAt(b, 8) == (if Ascii(e.path) then 0 else 0x800)
            && ShortAt(b, 10) == 0 && ShortAt(b, 12) == 0 && ShortAt(b, 14) == 33
            && LongAt(b, 16) == lib.crc(e.bytes) && LongAt(b, 20) == |e.bytes| && LongAt(b, 24) == |e.bytes|
            && ShortAt(b, 28) == |name| && ShortAt(b, 30) == 0 && ShortAt(b, 32) == 0
            && ShortAt(b, 34) == 0 && ShortAt(b, 36) == 0
            && LongAt(b, 38) == ((if e.kind.File? then 0x8000 else 0x4000) + e.mode) * 0x1_0000
            && LongAt(b, 42) == offset
            && b[46..] == name
  {
    FlagOfPath(e);
    var b, c, tail := CentralRecord(lib, e, offset), CentralOf(lib, e, offset), RawName(e);
    CentralPlaces(b, c, tail);
    CentralValues(lib, e, offset);
  }

  lemma CentralValues(lib: Libraries, e: Entry, offset: nat)
    requires Small(lib, e) && offset < 0x1_0000_0000
    ensures var c := CentralOf(lib, e, offset);
            && c.stored == c.size == |e.bytes| && c.nameLength == |RawName(e)| && c.offset == offset
            && c.external == ((if e.kind.File? then 0x8000 else 0x4000) + e.mode) * 0x1_0000
  {
  }

  lemma CentralPlaces(b: seq<byte>, c: Central, tail: seq<byte>)
    requires b == Put(CentralLayout(c)) + tail
    ensures |b| == 46 + |tail| && b[46..] == tail
    ensures LongAt(b, 0) == c.signature && ShortAt(b, 4) == c.madeBy && ShortAt(b, 6) == c.needed
    ensures ShortAt(b, 8) == c.flag && ShortAt(b, 10) == c.compression && ShortAt(b, 12) == c.time
    ensures ShortAt(b, 14) == c.date && LongAt(b, 16) == c.crc && LongAt(b, 20) == c.stored && LongAt(b, 24) == c.size
    ensures ShortAt(b, 28) == c.nameLength && ShortAt(b, 30) == c.extraLength && ShortAt(b, 32) == c.commentLength
    ensures ShortAt(b, 34) == c.disk && ShortAt(b, 36) == c.internal
    ensures LongAt(b, 38) == c.external && LongAt(b, 42) == c.offset
  {
    var f := CentralLayout(c);
    assert b[0..] == b;
    TakeLong(b, 0, f, tail); f := f.rest;
    TakeShort(b, 4, f, tail); f := f.rest;
    TakeShort(b, 6, f, tail); f := f.rest;
    TakeShort(b, 8, f, tail); f := f.rest;
    TakeShort(b, 10, f, tail); f := f.rest;
    TakeShort(b, 12, f, tail); f := f.rest;
    TakeShort(b, 14, f, tail); f := f.rest;
    TakeLong(b, 16, f, tail); f := f.rest;
    TakeLong(b, 20, f, tail); f := f.rest;
    TakeLong(b, 24, f, tail); f := f.rest;
    TakeShort(b, 28, f, tail); f := f.rest;
    TakeShort(b, 30, f, tail); f := f.rest;
    TakeShort(b, 32, f, tail); f := f.rest;
    TakeShort(b, 34, f, tail); f := f.rest;
    TakeShort(b, 36, f, tail); f := f.rest;
    TakeLong(b, 38, f, tail); f := f.rest;
    TakeLong(b, 42, f, tail);
    assert Put(Done) + tail == tail;
  }

  /** Signature, one disk, the count twice, size and place of the directory, no comment. */
  lemma EndBytes(count: nat, size: nat, start: nat)
    requires count < 0x1_0000 && size < 0x1_0000_0000 && start < 0x1_0000_0000
    ensures var b := EndRecord(count, size, start);
            && |b| == 22 && LongAt(b, 0) == 0x06054b50 && ShortAt(b, 4) == 0 && ShortAt(b, 6) == 0
            && ShortAt(b, 8) == count && ShortAt(b, 10) == count
            && LongAt(b, 12) == size && LongAt(b, 16) == start && ShortAt(b, 20) == 0
  {
    var b, f := EndRecord(count, size, start), EndLayout(EndOf(count, size, start));
    assert b[0..] == b == Put(f) + [];
    TakeLong(b, 0, f, []); f := f.rest;
    TakeShort(b, 4, f, []); f := f.rest;
    TakeShort(b, 6, f, []); f := f.rest;
    TakeShort(b, 8, f, []); f := f.rest;
    TakeShort(b, 10, f, []); f := f.rest;
    TakeLong(b, 12, f, []); f := f.rest;
    TakeLong(b, 16, f, []); f := f.rest;
    TakeShort(b, 20, f, []);
  }
}
