/** The three records of a stored-only ZIP file (PKWARE APPNOTE.TXT, sections 4.3.7, 4.3.12
    and 4.3.16) and an explicit reader for them. */
module ZipRecords {
  import opened ArchiveNames
  import opened Libraries
  import opened LittleEndian
  import opened Utf8
  import opened Wrappers

  const LOCAL_SIGNATURE := 0x04034b50
  const CENTRAL_SIGNATURE := 0x02014b50
  const END_SIGNATURE := 0x06054b50

  /** The fixed part of a local file record. */
  datatype Local = Local(
    signature: u32, needed: u16, flag: u16, compression: u16, time: u16, date: u16,
    crc: u32, stored: u32, size: u32, nameLength: u16, extraLength: u16)

  function LocalLayout(h: Local): Fields {
    Long(h.signature, Short(h.needed, Short(h.flag, Short(h.compression, Short(h.time,
    Short(h.date, Long(h.crc, Long(h.stored, Long(h.size, Short(h.nameLength,
    Short(h.extraLength, Done)))))))))))
  }

  /** The fixed part of a central directory record. */
  datatype Central = Central(
    signature: u32, madeBy: u16, needed: u16, flag: u16, compression: u16, time: u16, date: u16,
    crc: u32, stored: u32, size: u32, nameLength: u16, extraLength: u16, commentLength: u16,
    disk: u16, internal: u16, external: u32, offset: u32)

  function CentralLayout(h: Central): Fields {
    Long(h.signature, Short(h.madeBy, Short(h.needed, Short(h.flag, Short(h.compression,
    Short(h.time, Short(h.date, Long(h.crc, Long(h.stored, Long(h.size, Short(h.nameLength,
    Short(h.extraLength, Short(h.commentLength, Short(h.disk, Short(h.internal,
    Long(h.external, Long(h.offset, Done)))))))))))))))))
  }

  /** The end of the central directory, without its empty comment. */
  datatype End = End(
    signature: u32, disk: u16, startDisk: u16, here: u16, count: u16, size: u32, start: u32,
    commentLength: u16)

  function EndLayout(h: End): Fields {
    Long(h.signature, Short(h.disk, Short(h.startDisk, Short(h.here, Short(h.count,
    Long(h.size, Long(h.start, Short(h.commentLength, Done))))))))
  }

  const LOCAL_SHAPE := LocalLayout(Local(0, 0, 0, 0, 0, 0, 0, 0, 0, 0, 0))
  const CENTRAL_SHAPE := CentralLayout(Central(0, 0, 0, 0, 0, 0, 0, 0, 0, 0, 0, 0, 0, 0, 0, 0, 0))
  const END_SHAPE := EndLayout(End(0, 0, 0, 0, 0, 0, 0, 0))

  // ---- Writing --------------------------------------------------------------------

  function RawName(e: Entry): seq<byte> {
    Utf8.Encode(if e.kind.Directory? then e.path + "/" else e.path)
  }

  /** Bit 11 marks a name that is not plain ASCII. */
  function Flag(name: seq<byte>): u16 {
    if forall b | b in name :: b < 0x80 then 0 else 0x800
  }

  /** The Unix file type; a mode of at most 0o777 shares no bit with it. */
  function TypeBits(k: Kind): nat {
    match k case File => 0x8000 case Directory => 0x4000
  }

  function LocalOf(lib: Libraries, e: Entry): Local {
    var name, size := RawName(e), AsU32(|e.bytes|);
    Local(LOCAL_SIGNATURE, 20, Flag(name), 0, 0, 33, lib.crc(e.bytes), size, size, AsU16(|name|), 0)
  }

  function CentralOf(lib: Libraries, e: Entry, offset: nat): Central {
    var name, size := RawName(e), AsU32(|e.bytes|);
    Central(CENTRAL_SIGNATURE, 0x0314, 20, Flag(name), 0, 0, 33, lib.crc(e.bytes), size, size,
            AsU16(|name|), 0, 0, 0, 0, AsU32((TypeBits(e.kind) + e.mode) * 0x1_0000), AsU32(offset))
  }

  function LocalRecord(lib: Libraries, e: Entry): seq<byte> {
    Put(LocalLayout(LocalOf(lib, e))) + RawName(e) + e.bytes
  }

  function CentralRecord(lib: Libraries, e: Entry, offset: nat): seq<byte> {
    Put(CentralLayout(CentralOf(lib, e, offset))) + RawName(e)
  }

  function EndOf(count: nat, size: nat, start: nat): End {
    End(END_SIGNATURE, 0, 0, AsU16(count), AsU16(count), AsU32(size), AsU32(start), 0)
  }

  function EndRecord(count: nat, size: nat, start: nat): seq<byte> {
    Put(EndLayout(EndOf(count, size, start)))
  }

  // ---- Reading --------------------------------------------------------------------

  function ReadFields(shape: Fields, p: seq<byte>, at: nat): (r: Option<Fields>)
    ensures r.Some? <==> at + Size(shape) <= |p|
    ensures r.Some? ==> SameShape(shape, r.value)
  {
    if at + Size(shape) > |p| then None else Some(Get(shape, p[at..at + Size(shape)]))
  }

  function ReadLocal(p: seq<byte>, at: nat): Option<Local> {
    var fields :- ReadFields(LOCAL_SHAPE, p, at);
    match fields
    case Long(signature, Short(needed, Short(flag, Short(compression, Short(time, Short(date,
         Long(crc, Long(stored, Long(size, Short(nameLength, Short(extraLength, Done))))))))))) =>
      Some(Local(signature, needed, flag, compression, time, date, crc, stored, size, nameLength,
                 extraLength))
    case _ => None
  }

  function ReadCentral(p: seq<byte>, at: nat): Option<Central> {
    var fields :- ReadFields(CENTRAL_SHAPE, p, at);
    match fields
    case Long(signature, Short(madeBy, Short(needed, Short(flag, Short(compression, Short(time,
         Short(date, Long(crc, Long(stored, Long(size, Short(nameLength, Short(extraLength,
         Short(commentLength, Short(disk, Short(internal, Long(external, Long(offset,
         Done))))))))))))))))) =>
      Some(Central(signature, madeBy, needed, flag, compression, time, date, crc, stored, size,
                   nameLength, extraLength, commentLength, disk, internal, external, offset))
    case _ => None
  }

  function ReadEnd(p: seq<byte>, at: nat): Option<End> {
    var fields :- ReadFields(END_SHAPE, p, at);
    match fields
    case Long(signature, Short(disk, Short(startDisk, Short(here, Short(count, Long(size,
         Long(start, Short(commentLength, Done)))))))) =>
      Some(End(signature, disk, startDisk, here, count, size, start, commentLength))
    case _ => None
  }

  /** An entry of the central directory: its record and its raw name. */
  datatype Listed = Listed(record: Central, name: seq<byte>)

  /** The entry at a place, and where the next one starts. */
  function ReadListed(p: seq<byte>, at: nat): Option<(Listed, nat)> {
    var h :- ReadCentral(p, at);
    var end := at + 46 + h.nameLength;
    if h.signature != CENTRAL_SIGNATURE || end > |p| then None
    else Some((Listed(h, p[at + 46..end]), end + h.extraLength + h.commentLength))
  }

  /** A name is UTF-8 when flagged so; unflagged names are accepted only as ASCII. */
  function ReadName(flag: nat, name: seq<byte>): Option<string> {
    if flag / 0x800 % 2 == 1 || Flag(name) == 0 then Utf8.Decode(name) else None
  }

  /** The local record repeats what the central one says. */
  predicate Consistent(l: Local, c: Central) {
    && l.signature == LOCAL_SIGNATURE
    && l.needed == c.needed && l.flag == c.flag && l.compression == c.compression
    && l.time == c.time && l.date == c.date
    && l.crc == c.crc && l.stored == c.stored && l.size == c.size
  }

  /** The stored bytes of a file. */
  function ReadStored(lib: Libraries, p: seq<byte>, c: Listed): Option<seq<byte>> {
    var at := c.record.offset;
    var l :- ReadLocal(p, at);
    var start := at + 30 + l.nameLength + l.extraLength;
    if || !Consistent(l, c.record) || start + l.stored > |p|
       || p[at + 30..at + 30 + l.nameLength] != c.name
       || l.stored != l.size || lib.crc(p[start..start + l.stored]) != l.crc
    then None
    else Some(p[start..start + l.stored])
  }

  /** The file type and permissions kept for Unix; other systems are refused. */
  function ReadKind(c: Central): Option<(Kind, nat)> {
    var mode := c.external / 0x1_0000;
    if c.madeBy / 256 != 3 || mode % 4096 > 0x1FF then None
    else if mode / 4096 == 8 then Some((File, mode % 512))
    else if mode / 4096 == 4 then Some((Directory, mode % 512))
    else None
  }

  /** One file, with everything that does not depend on limits checked: stored, not
      encrypted, Unix, and a trailing separator exactly on directories. */
  function ReadEntry(lib: Libraries, p: seq<byte>, c: Listed): Option<Entry> {
    var (kind, mode) :- ReadKind(c.record);
    var name :- ReadName(c.record.flag, c.name);
    var slash := name != "" && name[|name| - 1] == '/';
    var bytes :- ReadStored(lib, p, c);
    if c.record.compression != 0 || c.record.flag % 2 == 1 || slash != kind.Directory? then None
    else Some(Entry(if slash then name[..|name| - 1] else name, bytes, mode, kind))
  }

  // ---- Reading back what was written ----------------------------------------------

  ghost predicate Small(lib: Libraries, e: Entry) {
    |RawName(e)| < 0x1_0000 && |e.bytes| < 0x1_0000_0000 && e.mode < 0x200
  }

  lemma FieldsReadBack(shape: Fields, f: Fields, pre: seq<byte>, post: seq<byte>)
    requires SameShape(shape, f)
    ensures ReadFields(shape, pre + Put(f) + post, |pre|) == Some(f)
  {
    RecordBack(shape, f);
    var p := pre + Put(f) + post;
    assert p[|pre|..|pre| + Size(shape)] == Put(f);
  }

  lemma Find(pre: seq<byte>, x: seq<byte>, post: seq<byte>)
    ensures (pre + x + post)[|pre|..|pre| + |x|] == x
  {
  }

  lemma Shift(pre: seq<byte>, x: seq<byte>, rest: seq<byte>, post: seq<byte>)
    ensures pre + (x + rest) + post == pre + x + (rest + post)
    ensures pre + (x + rest) + post == (pre + x) + rest + post
  {
  }

  /** One more field in front, in a shape and in a record of that shape. */
  lemma AddShort(s: Fields, f: Fields, n: u16) returns (shape: Fields, record: Fields)
    requires SameShape(s, f)
    ensures shape == Short(0, s) && record == Short(n, f)
    ensures SameShape(shape, record) && Size(record) == 2 + Size(f)
  {
    shape, record := Short(0, s), Short(n, f);
  }

  lemma AddLong(s: Fields, f: Fields, n: u32) returns (shape: Fields, record: Fields)
    requires SameShape(s, f)
    ensures shape == Long(0, s) && record == Long(n, f)
    ensures SameShape(shape, record) && Size(record) == 4 + Size(f)
  {
    shape, record := Long(0, s), Long(n, f);
  }

  lemma LocalShape(l: Local)
    ensures SameShape(LOCAL_SHAPE, LocalLayout(l)) && Size(LocalLayout(l)) == 30
  {
    var s, f := Done, Done;
    s, f := AddShort(s, f, l.extraLength); s, f := AddShort(s, f, l.nameLength);
    s, f := AddLong(s, f, l.size); s, f := AddLong(s, f, l.stored);
    s, f := AddLong(s, f, l.crc); s, f := AddShort(s, f, l.date);
    s, f := AddShort(s, f, l.time); s, f := AddShort(s, f, l.compression);
    s, f := AddShort(s, f, l.flag); s, f := AddShort(s, f, l.needed);
    s, f := AddLong(s, f, l.signature);
    assert s == LOCAL_SHAPE && f == LocalLayout(l);
  }

  lemma CentralShape(c: Central)
    ensures SameShape(CENTRAL_SHAPE, CentralLayout(c)) && Size(CentralLayout(c)) == 46
  {
    var s, f := Done, Done;
    s, f := AddLong(s, f, c.offset); s, f := AddLong(s, f, c.external);
    s, f := AddShort(s, f, c.internal); s, f := AddShort(s, f, c.disk);
    s, f := AddShort(s, f, c.commentLength); s, f := AddShort(s, f, c.extraLength);
    s, f := AddShort(s, f, c.nameLength); s, f := AddLong(s, f, c.size);
    s, f := AddLong(s, f, c.stored); s, f := AddLong(s, f, c.crc);
    s, f := AddShort(s, f, c.date); s, f := AddShort(s, f, c.time);
    s, f := AddShort(s, f, c.compression); s, f := AddShort(s, f, c.flag);
    s, f := AddShort(s, f, c.needed); s, f := AddShort(s, f, c.madeBy);
    s, f := AddLong(s, f, c.signature);
    assert s == CENTRAL_SHAPE && f == CentralLayout(c);
  }

  lemma EndShape(h: End)
    ensures SameShape(END_SHAPE, EndLayout(h)) && Size(EndLayout(h)) == 22
  {
    var s, f := Done, Done;
    s, f := AddShort(s, f, h.commentLength); s, f := AddLong(s, f, h.start);
    s, f := AddLong(s, f, h.size); s, f := AddShort(s, f, h.count);
    s, f := AddShort(s, f, h.here); s, f := AddShort(s, f, h.startDisk);
    s, f := AddShort(s, f, h.disk); s, f := AddLong(s, f, h.signature);
    assert s == END_SHAPE && f == EndLayout(h);
  }

  lemma LocalBack(l: Local, pre: seq<byte>, post: seq<byte>)
    ensures |Put(LocalLayout(l))| == 30
    ensures ReadLocal(pre + Put(LocalLayout(l)) + post, |pre|) == Some(l)
  {
    LocalShape(l);
    FieldsReadBack(LOCAL_SHAPE, LocalLayout(l), pre, post);
  }

  lemma CentralBack(c: Central, pre: seq<byte>, post: seq<byte>)
    ensures |Put(CentralLayout(c))| == 46
    ensures ReadCentral(pre + Put(CentralLayout(c)) + post, |pre|) == Some(c)
  {
    CentralShape(c);
    FieldsReadBack(CENTRAL_SHAPE, CentralLayout(c), pre, post);
  }

  lemma EndBack(h: End, pre: seq<byte>)
    ensures |Put(EndLayout(h))| == 22
    ensures ReadEnd(pre + Put(EndLayout(h)), |pre|) == Some(h)
  {
    EndShape(h);
    FieldsReadBack(END_SHAPE, EndLayout(h), pre, []);
    assert pre + Put(EndLayout(h)) + [] == pre + Put(EndLayout(h));
  }

  /** What a reader learns from the central record of entry e. */
  function ListedOf(lib: Libraries, e: Entry, offset: nat): Listed {
    Listed(CentralOf(lib, e, offset), RawName(e))
  }

  lemma ListedBack(pre: seq<byte>, listed: Listed, record: seq<byte>, post: seq<byte>)
    requires listed.record.signature == CENTRAL_SIGNATURE && listed.record.nameLength == |listed.name|
    requires listed.record.extraLength == 0 && listed.record.commentLength == 0
    requires record == Put(CentralLayout(listed.record)) + listed.name
    ensures |record| == 46 + |listed.name|
    ensures ReadListed(pre + record + post, |pre|) == Some((listed, |pre| + |record|))
  {
    var head, name := Put(CentralLayout(listed.record)), listed.name;
    Shift(pre, head, name, post);
    CentralBack(listed.record, pre, name + post);
    Find(pre + head, name, post);
  }

  lemma CentralFields(lib: Libraries, e: Entry, offset: nat)
    requires Small(lib, e)
    ensures var listed := ListedOf(lib, e, offset);
            && listed.record.signature == CENTRAL_SIGNATURE && listed.record.nameLength == |listed.name|
            && listed.record.extraLength == 0 && listed.record.commentLength == 0
            && listed.name == RawName(e)
            && CentralRecord(lib, e, offset) == Put(CentralLayout(listed.record)) + listed.name
  {
  }

  lemma CentralReadsBack(lib: Libraries, pre: seq<byte>, e: Entry, offset: nat, post: seq<byte>)
    requires Small(lib, e) && offset < 0x1_0000_0000
    ensures |CentralRecord(lib, e, offset)| == 46 + |RawName(e)|
    ensures ReadListed(pre + CentralRecord(lib, e, offset) + post, |pre|)
         == Some((ListedOf(lib, e, offset), |pre| + |CentralRecord(lib, e, offset)|))
  {
    CentralFields(lib, e, offset);
    ListedBack(pre, ListedOf(lib, e, offset), CentralRecord(lib, e, offset), post);
  }

  lemma StoredAt(lib: Libraries, p: seq<byte>, c: Listed, l: Local, bytes: seq<byte>,
                 name: nat, start: nat, end: nat)
    requires ReadLocal(p, c.record.offset) == Some(l) && Consistent(l, c.record)
    requires l.nameLength == |c.name| && l.extraLength == 0
    requires l.stored == l.size == |bytes| && l.crc == lib.crc(bytes)
    requires name == c.record.offset + 30 && start == name + |c.name| && end == start + |bytes| <= |p|
    requires p[name..start] == c.name && p[start..end] == bytes
    ensures ReadStored(lib, p, c) == Some(bytes)
  {
  }

  /** The local record is found where the entry begins. */
  lemma LocalFound(pre: seq<byte>, l: Local, name: seq<byte>, bytes: seq<byte>, post: seq<byte>, p: seq<byte>)
    requires p == pre + Put(LocalLayout(l)) + (name + bytes + post)
    ensures |Put(LocalLayout(l))| == 30 && ReadLocal(p, |pre|) == Some(l)
  {
    LocalBack(l, pre, name + bytes + post);
  }

  lemma StoredBack(lib: Libraries, pre: seq<byte>, l: Local, bytes: seq<byte>, post: seq<byte>, c: Listed)
    requires Consistent(l, c.record) && c.record.offset == |pre|
    requires l.nameLength == |c.name| && l.extraLength == 0
    requires l.stored == l.size == |bytes| && l.crc == lib.crc(bytes)
    ensures ReadStored(lib, pre + (Put(LocalLayout(l)) + c.name + bytes) + post, c) == Some(bytes)
  {
    var head := Put(LocalLayout(l));
    LocalBack(l, [], []);
    var p, name, start, end := LocalPlaces(pre, head, c.name, bytes, post);
    LocalFound(pre, l, c.name, bytes, post, p);
    StoredAt(lib, p, c, l, bytes, name, start, end);
  }

  lemma LocalReadsBack(lib: Libraries, pre: seq<byte>, e: Entry, post: seq<byte>)
    requires Small(lib, e) && |pre| < 0x1_0000_0000
    ensures |LocalRecord(lib, e)| == 30 + |RawName(e)| + |e.bytes|
    ensures ReadStored(lib, pre + LocalRecord(lib, e) + post, ListedOf(lib, e, |pre|)) == Some(e.bytes)
  {
    LocalBack(LocalOf(lib, e), [], []);
    StoredBack(lib, pre, LocalOf(lib, e), e.bytes, post, ListedOf(lib, e, |pre|));
  }

  /** Where the three parts of a local record lie. */
  lemma LocalPlaces(pre: seq<byte>, head: seq<byte>, name: seq<byte>, bytes: seq<byte>, post: seq<byte>)
    returns (p: seq<byte>, at: nat, start: nat, end: nat)
    requires |head| == 30
    ensures p == pre + (head + name + bytes) + post == pre + head + (name + bytes + post)
    ensures at == |pre| + 30 && start == at + |name| && end == start + |bytes| <= |p|
    ensures p[at..start] == name && p[start..end] == bytes
  {
    p := pre + (head + name + bytes) + post;
    at, start, end := |pre| + 30, |pre| + 30 + |name|, |pre| + 30 + |name| + |bytes|;
    assert p == pre + head + (name + bytes + post);
    assert p == (pre + head) + name + (bytes + post);
    Find(pre + head, name, bytes + post);
    assert p == (pre + head + name) + bytes + post;
    Find(pre + head + name, bytes, post);
  }

  lemma KindReadsBack(lib: Libraries, e: Entry, offset: nat)
    requires e.mode < 0x200
    ensures ReadKind(CentralOf(lib, e, offset)) == Some((e.kind, e.mode))
  {
    var mode := TypeBits(e.kind) + e.mode;
    assert mode * 0x1_0000 / 0x1_0000 == mode;
    assert mode / 4096 == (if e.kind.File? then 8 else 4) && mode % 4096 == e.mode;
  }

  lemma FlaggedName(name: seq<byte>)
    ensures ReadName(Flag(name), name) == Utf8.Decode(name)
  {
  }

  lemma NameReadsBack(e: Entry)
    ensures ReadName(Flag(RawName(e)), RawName(e))
         == Some(if e.kind.Directory? then e.path + "/" else e.path)
  {
    FlaggedName(RawName(e));
    Utf8.DecodeEncode(if e.kind.Directory? then e.path + "/" else e.path);
  }

  lemma EntryOf(lib: Libraries, p: seq<byte>, c: Listed, e: Entry, name: string)
    requires ReadKind(c.record) == Some((e.kind, e.mode)) && ReadName(c.record.flag, c.name) == Some(name)
    requires ReadStored(lib, p, c) == Some(e.bytes)
    requires c.record.compression == 0 && c.record.flag % 2 == 0
    requires name == if e.kind.Directory? then e.path + "/" else e.path
    requires e.kind.File? ==> e.path == "" || e.path[|e.path| - 1] != '/'
    ensures ReadEntry(lib, p, c) == Some(e)
  {
    assert e.kind.Directory? ==> name[..|name| - 1] == e.path;
  }

  lemma EntryReadsBack(lib: Libraries, p: seq<byte>, e: Entry, offset: nat)
    requires Small(lib, e)
    requires e.kind.File? ==> e.path == "" || e.path[|e.path| - 1] != '/'
    requires ReadStored(lib, p, ListedOf(lib, e, offset)) == Some(e.bytes)
    ensures ReadEntry(lib, p, ListedOf(lib, e, offset)) == Some(e)
  {
    KindReadsBack(lib, e, offset);
    NameReadsBack(e);
    assert Flag(RawName(e)) == 0 || Flag(RawName(e)) == 0x800;
    EntryOf(lib, p, ListedOf(lib, e, offset), e, if e.kind.Directory? then e.path + "/" else e.path);
  }
}
