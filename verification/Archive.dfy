/** The canonical stored ZIP transport: validation, encoding and decoding. Refusals carry
    no detail in the program, so a failed operation is `None`. */
module Archive {
  import opened ArchiveNames
  import opened Libraries
  import opened PortablePaths
  import opened SafePaths
  import opened Utf8
  import opened Wrappers
  import opened ZipRecords

  const USIZE_MAX := 0xFFFF_FFFF_FFFF_FFFF
  const U32_MAX := 0xFFFF_FFFF
  const U16_MAX := 0xFFFF

  type usize = n: nat | n <= USIZE_MAX

  datatype Limits = Limits(entries: usize, fileBytes: usize, contentBytes: usize, archiveBytes: usize)

  // ---- What a valid list is -------------------------------------------------------

  function NameSize(e: Entry): nat {
    |Utf8.Encode(e.path)| + (if e.kind.Directory? then 1 else 0)
  }

  function ContentSize(es: seq<Entry>): nat {
    if es == [] then 0 else |es[0].bytes| + ContentSize(es[1..])
  }

  function RecordSizes(es: seq<Entry>): nat {
    if es == [] then 0 else 76 + 2 * NameSize(es[0]) + |es[0].bytes| + RecordSizes(es[1..])
  }

  function ArchiveSize(es: seq<Entry>): nat {
    22 + RecordSizes(es)
  }

  predicate PortableEntry(lib: Libraries, e: Entry, limits: Limits) {
    && SafePath(lib, e.path)
    && e.mode <= 0x1FF
    && (e.kind.Directory? ==> e.bytes == [])
    && |e.bytes| <= limits.fileBytes
  }

  /** Every entry on its own, and the totals. The size limits are only looked at when there
      is an entry. */
  ghost predicate EntriesFit(lib: Libraries, es: seq<Entry>, limits: Limits) {
    && |es| <= limits.entries && |es| < U16_MAX
    && (forall e | e in es :: PortableEntry(lib, e, limits))
    && (es != [] ==> && ContentSize(es) <= limits.contentBytes
                     && ArchiveSize(es) <= limits.archiveBytes
                     && ArchiveSize(es) < U32_MAX)
  }

  ghost predicate Valid(lib: Libraries, es: seq<Entry>, limits: Limits) {
    EntriesFit(lib, es, limits) && Accepted(lib, es)
  }

  // ---- The encoding ---------------------------------------------------------------

  /** How one entry is written and read: its two records, the reader of the directory, the
      reader of a file, and what the directory says of an entry. */
  datatype Format = Format(
    local: Entry -> seq<byte>,
    central: (Entry, nat) -> seq<byte>,
    listed: (seq<byte>, nat) -> Option<(Listed, nat)>,
    entry: (seq<byte>, Listed) -> Option<Entry>,
    view: (Entry, nat) -> Listed)

  function Zip(lib: Libraries): Format {
    Format(
      (e: Entry) => LocalRecord(lib, e),
      (e: Entry, offset: nat) => CentralRecord(lib, e, offset),
      (p: seq<byte>, at: nat) => ReadListed(p, at),
      (p: seq<byte>, c: Listed) => ReadEntry(lib, p, c),
      (e: Entry, offset: nat) => ListedOf(lib, e, offset))
  }

  function Locals(f: Format, es: seq<Entry>): seq<byte> {
    if es == [] then [] else f.local(es[0]) + Locals(f, es[1..])
  }

  /** The directory of entries whose first local record lies at the given offset. */
  function Directories(f: Format, es: seq<Entry>, offset: nat): seq<byte> {
    if es == [] then []
    else f.central(es[0], offset) + Directories(f, es[1..], offset + |f.local(es[0])|)
  }

  function Encoding(lib: Libraries, es: seq<Entry>): seq<byte> {
    var output, central := Locals(Zip(lib), es), Directories(Zip(lib), es, 0);
    output + central + EndRecord(|es|, |central|, |output|)
  }

  ghost function Encoded(lib: Libraries, es: seq<Entry>, limits: Limits): Option<seq<byte>> {
    if Valid(lib, es, limits) then Some(Encoding(lib, es)) else None
  }

  /** The whole directory, as the archive reader indexes it before reading any file. */
  function ReadDirectory(f: Format, p: seq<byte>, at: nat, count: nat): (r: Option<seq<Listed>>)
    ensures r.Some? ==> |r.value| == count
    decreases count
  {
    if count == 0 then Some([])
    else
      var (c, next) :- f.listed(p, at);
      var rest :- ReadDirectory(f, p, next, count - 1);
      Some([c] + rest)
  }

  function ReadEntries(f: Format, p: seq<byte>, cs: seq<Listed>): (r: Option<seq<Entry>>)
    ensures r.Some? ==> |r.value| == |cs|
  {
    if cs == [] then Some([])
    else
      var e :- f.entry(p, cs[0]);
      var rest :- ReadEntries(f, p, cs[1..]);
      Some([e] + rest)
  }

  // ---- Size accounting ------------------------------------------------------------

  lemma RawNameSize(e: Entry)
    ensures |RawName(e)| == NameSize(e)
  {
    Utf8.EncodeConcat(e.path, "/");
    assert Utf8.Encode("/") == EncodeChar('/') + Utf8.Encode("/"[1..]);
  }

  lemma RecordSize(lib: Libraries, e: Entry, offset: nat)
    ensures |Zip(lib).local(e)| + |Zip(lib).central(e, offset)| == 76 + 2 * NameSize(e) + |e.bytes|
  {
    RawNameSize(e);
    LocalBack(LocalOf(lib, e), [], []);
    CentralBack(CentralOf(lib, e, offset), [], []);
  }

  lemma {:induction false} RecordsSize(lib: Libraries, es: seq<Entry>, offset: nat)
    ensures |Locals(Zip(lib), es)| + |Directories(Zip(lib), es, offset)| == RecordSizes(es)
  {
    if es != [] {
      RecordSize(lib, es[0], offset);
      RecordsSize(lib, es[1..], offset + |Zip(lib).local(es[0])|);
    }
  }

  /** The running total is the exact size of the output. */
  lemma ExactSize(lib: Libraries, es: seq<Entry>)
    ensures |Encoding(lib, es)| == ArchiveSize(es)
  {
    RecordsSize(lib, es, 0);
    var output, central := Locals(Zip(lib), es), Directories(Zip(lib), es, 0);
    EndBack(EndOf(|es|, |central|, |output|), []);
  }

  lemma {:induction false} EntryWithinSizes(es: seq<Entry>, e: Entry)
    requires e in es
    ensures |e.bytes| <= ContentSize(es) && 76 + 2 * NameSize(e) + |e.bytes| <= RecordSizes(es)
  {
    if e != es[0] {
      EntryWithinSizes(es[1..], e);
    }
  }

  /** The numbers of a valid archive are below the values that announce ZIP64 (APPNOTE.TXT
      section 4.4.1.4), so there is room for them in their fields. */
  lemma NoFieldOverflows(lib: Libraries, es: seq<Entry>, limits: Limits)
    requires Valid(lib, es, limits)
    ensures |es| < U16_MAX && |Locals(Zip(lib), es)| + |Directories(Zip(lib), es, 0)| < U32_MAX
    ensures forall e | e in es :: |RawName(e)| < U16_MAX && |e.bytes| < U32_MAX
  {
    RecordsSize(lib, es, 0);
    forall e | e in es ensures |RawName(e)| < U16_MAX && |e.bytes| < U32_MAX {
      EntryWithinSizes(es, e);
      RawNameSize(e);
      assert PortableEntry(lib, e, limits);
    }
  }

  /** A list is encoded exactly when it is within the counts, each entry is within the rules,
      its names are accepted, and its encoding, unless it is empty, is within its bounds and
      below 2 to the 32nd. */
  lemma EncodedExactly(lib: Libraries, es: seq<Entry>, limits: Limits)
    ensures Encoded(lib, es, limits).Some? <==>
            && |es| <= limits.entries && |es| < 65_535 && Accepted(lib, es)
            && (forall e | e in es ::
                  && SafePath(lib, e.path) && e.mode <= 511 && |e.bytes| <= limits.fileBytes
                  && (e.kind.Directory? ==> e.bytes == []))
            && (es != [] ==> && ContentSize(es) <= limits.contentBytes
                             && |Encoding(lib, es)| <= limits.archiveBytes
                             && |Encoding(lib, es)| < 4_294_967_295)
  {
    ExactSize(lib, es);
  }

  /** Where entry i lies: its local record starts after those before it, and the directory
      gives that place. */
  lemma {:induction false} EntryPlaces(f: Format, es: seq<Entry>, i: nat, offset: nat)
    requires i < |es|
    ensures Locals(f, es) == Locals(f, es[..i]) + (f.local(es[i]) + Locals(f, es[i + 1..]))
    ensures var at := offset + |Locals(f, es[..i])|;
            Directories(f, es, offset)
            == Directories(f, es[..i], offset)
             + (f.central(es[i], at) + Directories(f, es[i + 1..], at + |f.local(es[i])|))
  {
    if i == 0 {
      assert es[..0] == [] && es[0 + 1..] == es[1..];
    } else {
      var x, rest := f.local(es[0]), es[1..];
      assert es[..i][0] == es[0] && es[..i][1..] == rest[..i - 1];
      assert rest[i - 1] == es[i] && rest[i - 1 + 1..] == es[i + 1..];
      EntryPlaces(f, rest, i - 1, offset + |x|);
      Regroup(x, Locals(f, rest[..i - 1]), f.local(es[i]) + Locals(f, es[i + 1..]));
      var at := offset + |Locals(f, es[..i])|;
      Regroup(f.central(es[0], offset), Directories(f, rest[..i - 1], offset + |x|),
              f.central(es[i], at) + Directories(f, es[i + 1..], at + |f.local(es[i])|));
    }
  }

  lemma Regroup(a: seq<byte>, b: seq<byte>, c: seq<byte>)
    ensures a + (b + c) == (a + b) + c
  {
  }

  lemma {:induction false} LocalsGrow(f: Format, es: seq<Entry>, i: nat)
    requires i <= |es|
    ensures |Locals(f, es[..i])| <= |Locals(f, es)|
  {
    if i > 0 {
      LocalsGrow(f, es[1..], i - 1);
      assert es[..i][0] == es[0] && es[..i][1..] == es[1..][..i - 1];
    }
  }

  /** The fields stored for entry i hold its true sizes, name length and place: none is
      narrowed, and none is the value that announces ZIP64. */
  lemma StoredFields(lib: Libraries, es: seq<Entry>, limits: Limits, i: nat)
    requires Valid(lib, es, limits) && i < |es|
    ensures var e, at := es[i], |Locals(Zip(lib), es[..i])|;
            var l, c := LocalOf(lib, e), CentralOf(lib, e, at);
            && l.stored == l.size == c.stored == c.size == |e.bytes| && l.size != U32_MAX
            && l.nameLength == c.nameLength == |RawName(e)| && l.nameLength != U16_MAX
            && c.offset == at && c.offset != U32_MAX
            && c.external == (TypeBits(e.kind) + e.mode) * 0x1_0000
  {
    var e := es[i];
    assert e in es && PortableEntry(lib, e, limits);
    NoFieldOverflows(lib, es, limits);
    LocalsGrow(Zip(lib), es, i);
  }

  /** So do the fields of the footer. */
  lemma StoredFooter(lib: Libraries, es: seq<Entry>, limits: Limits)
    requires Valid(lib, es, limits)
    ensures var output, central := |Locals(Zip(lib), es)|, |Directories(Zip(lib), es, 0)|;
            var h := EndOf(|es|, central, output);
            && h.here == h.count == |es| && h.count != U16_MAX
            && h.size == central && h.size != U32_MAX && h.start == output && h.start != U32_MAX
  {
    NoFieldOverflows(lib, es, limits);
  }

  // ---- Reading an encoding back ---------------------------------------------------

  /** The directory reader finds the record of e wherever it lies. */
  ghost predicate ListsBack(f: Format, e: Entry) {
    forall pre, post: seq<byte>, offset: nat | offset < U32_MAX ::
      f.listed(pre + f.central(e, offset) + post, |pre|)
      == Some((f.view(e, offset), |pre| + |f.central(e, offset)|))
  }

  /** The file reader returns e wherever its local record lies. */
  ghost predicate StoresBack(f: Format, e: Entry) {
    forall pre, post: seq<byte> | |pre| < U32_MAX ::
      f.entry(pre + f.local(e) + post, f.view(e, |pre|)) == Some(e)
  }

  ghost predicate ReadsBack(f: Format, e: Entry) {
    ListsBack(f, e) && StoresBack(f, e)
  }

  lemma ZipListsAt(lib: Libraries, f: Format, e: Entry, pre: seq<byte>, offset: nat, post: seq<byte>)
    requires f == Zip(lib) && Small(lib, e) && offset < U32_MAX
    ensures f.listed(pre + f.central(e, offset) + post, |pre|)
         == Some((f.view(e, offset), |pre| + |f.central(e, offset)|))
  {
    CentralReadsBack(lib, pre, e, offset, post);
  }

  lemma ZipStoresAt(lib: Libraries, f: Format, e: Entry, pre: seq<byte>, post: seq<byte>)
    requires f == Zip(lib) && Small(lib, e) && |pre| < U32_MAX
    requires e.kind.File? ==> e.path == "" || e.path[|e.path| - 1] != '/'
    ensures f.entry(pre + f.local(e) + post, f.view(e, |pre|)) == Some(e)
  {
    LocalReadsBack(lib, pre, e, post);
    EntryReadsBack(lib, pre + LocalRecord(lib, e) + post, e, |pre|);
  }

  lemma ZipReadsBack(lib: Libraries, f: Format, e: Entry)
    requires f == Zip(lib) && Small(lib, e)
    requires e.kind.File? ==> e.path == "" || e.path[|e.path| - 1] != '/'
    ensures ReadsBack(f, e)
  {
    forall pre, post: seq<byte>, offset: nat | offset < U32_MAX
      ensures f.listed(pre + f.central(e, offset) + post, |pre|)
           == Some((f.view(e, offset), |pre| + |f.central(e, offset)|))
    {
      ZipListsAt(lib, f, e, pre, offset, post);
    }
    forall pre, post: seq<byte> | |pre| < U32_MAX
      ensures f.entry(pre + f.local(e) + post, f.view(e, |pre|)) == Some(e)
    {
      ZipStoresAt(lib, f, e, pre, post);
    }
  }

  function Views(f: Format, es: seq<Entry>, offset: nat): (cs: seq<Listed>)
    ensures |cs| == |es|
  {
    if es == [] then [] else [f.view(es[0], offset)] + Views(f, es[1..], offset + |f.local(es[0])|)
  }

  lemma {:induction false} DirectoryReadsBack(f: Format, pre: seq<byte>, es: seq<Entry>, offset: nat,
                                              post: seq<byte>)
    requires forall e | e in es :: ReadsBack(f, e)
    requires offset + |Locals(f, es)| < U32_MAX
    ensures ReadDirectory(f, pre + Directories(f, es, offset) + post, |pre|, |es|)
         == Some(Views(f, es, offset))
    decreases |es|
  {
    if es != [] {
      var x, after := f.central(es[0], offset), offset + |f.local(es[0])|;
      var rest := Directories(f, es[1..], after);
      Shift(pre, x, rest, post);
      assert ReadsBack(f, es[0]);
      DirectoryReadsBack(f, pre + x, es[1..], after, post);
    }
  }

  lemma {:induction false} EntriesReadBack(f: Format, pre: seq<byte>, es: seq<Entry>, post: seq<byte>)
    requires forall e | e in es :: ReadsBack(f, e)
    requires |pre| + |Locals(f, es)| < U32_MAX
    ensures ReadEntries(f, pre + Locals(f, es) + post, Views(f, es, |pre|)) == Some(es)
    decreases |es|
  {
    if es != [] {
      var x, rest := f.local(es[0]), Locals(f, es[1..]);
      Shift(pre, x, rest, post);
      assert ReadsBack(f, es[0]);
      EntriesReadBack(f, pre + x, es[1..], post);
      var cs := Views(f, es, |pre|);
      assert cs[1..] == Views(f, es[1..], |pre + x|);
      assert es == [es[0]] + es[1..];
    }
  }

  /** The name without its encoding. */
  function Name(e: Entry): string {
    if e.kind.Directory? then e.path + "/" else e.path
  }

  lemma SafePathHasNoFinalSlash(lib: Libraries, path: string, dir: string)
    requires SafePath(lib, path)
    ensures path != dir + "/"
  {
    SplitSlash(dir, "");
    assert dir + "/" + "" == dir + "/";
    var parts := Split(dir + "/");
    assert parts[|Split(dir)|] == "" && "" in parts;
    assert !SafePart("");
  }

  lemma SafePathEnd(lib: Libraries, path: string)
    requires SafePath(lib, path)
    ensures path[|path| - 1] != '/'
  {
    var dir := path[..|path| - 1];
    SafePathHasNoFinalSlash(lib, path, dir);
    assert path[|path| - 1] == '/' ==> path == dir + "/";
  }

  lemma SameRawName(lib: Libraries, x: Entry, y: Entry)
    requires SafePath(lib, x.path) && SafePath(lib, y.path) && RawName(x) == RawName(y)
    ensures x.path == y.path
  {
    Utf8.EncodeInjective(Name(x), Name(y));
    SafePathHasNoFinalSlash(lib, x.path, y.path);
    SafePathHasNoFinalSlash(lib, y.path, x.path);
    assert x.path == Name(x)[..|x.path|] && y.path == Name(y)[..|y.path|];
  }

  lemma RawNamesDiffer(lib: Libraries, es: seq<Entry>, limits: Limits, i: nat, j: nat)
    requires Valid(lib, es, limits) && i < j < |es|
    ensures RawName(es[i]) != RawName(es[j])
  {
    assert es[i] in es && es[j] in es;
    assert Key(lib)(es[i]) != Key(lib)(es[j]);
    if RawName(es[i]) == RawName(es[j]) {
      SameRawName(lib, es[i], es[j]);
      assert false;
    }
  }

  lemma ValidReadsBack(lib: Libraries, es: seq<Entry>, limits: Limits)
    requires Valid(lib, es, limits)
    ensures forall e | e in es :: ReadsBack(Zip(lib), e)
  {
    NoFieldOverflows(lib, es, limits);
    forall e | e in es ensures ReadsBack(Zip(lib), e) {
      assert PortableEntry(lib, e, limits);
      SafePathEnd(lib, e.path);
      ZipReadsBack(lib, Zip(lib), e);
    }
  }

  // ---- Decoding -------------------------------------------------------------------

  /** The reader keeps one entry per raw name, so a repeated name changes their number. */
  predicate DistinctNames(cs: seq<Listed>) {
    forall i, j | 0 <= i < j < |cs| :: cs[i].name != cs[j].name
  }

  function ReadFiles(f: Format, payload: seq<byte>, start: nat, count: nat): Option<seq<Entry>> {
    var directory :- ReadDirectory(f, payload, start, count);
    if DistinctNames(directory) then ReadEntries(f, payload, directory) else None
  }

  /** The footer closes the file, counts the entries once, and places the directory right
      before itself. */
  predicate GoodEnd(h: End, end: nat, limits: Limits) {
    && h.signature == END_SIGNATURE && h.disk == 0 && h.startDisk == 0
    && h.here == h.count && h.commentLength == 0
    && h.count <= limits.entries && h.start + h.size == end
  }

  predicate WithinLimits(lib: Libraries, es: seq<Entry>, limits: Limits) {
    (forall e | e in es :: PortableEntry(lib, e, limits)) && ContentSize(es) <= limits.contentBytes
  }

  function ReadArchive(lib: Libraries, payload: seq<byte>, limits: Limits): Option<seq<Entry>> {
    if |payload| > limits.archiveBytes || |payload| < 22 then None
    else
      var end := |payload| - 22;
      var h :- ReadEnd(payload, end);
      if !GoodEnd(h, end, limits) then None
      else
        var es :- ReadFiles(Zip(lib), payload, h.start, h.count);
        if WithinLimits(lib, es, limits) then Some(es) else None
  }

  ghost function Decoded(lib: Libraries, payload: seq<byte>, limits: Limits): Option<seq<Entry>> {
    var es :- ReadArchive(lib, payload, limits);
    if Encoded(lib, es, limits) == Some(payload) then Some(es) else None
  }

  lemma {:induction false} ViewNames(lib: Libraries, es: seq<Entry>, offset: nat)
    ensures forall i | 0 <= i < |es| :: Views(Zip(lib), es, offset)[i].name == RawName(es[i])
  {
    if es != [] {
      ViewNames(lib, es[1..], offset + |Zip(lib).local(es[0])|);
      var cs := Views(Zip(lib), es, offset);
      forall i | 0 <= i < |es| ensures cs[i].name == RawName(es[i]) {
        if i > 0 {
          assert cs[1..] == Views(Zip(lib), es[1..], offset + |Zip(lib).local(es[0])|);
          assert cs[i] == cs[1..][i - 1] && es[i] == es[1..][i - 1];
        }
      }
    }
  }

  lemma EncodingEnd(p: seq<byte>, output: seq<byte>, central: seq<byte>, h: End)
    requires |output| + |central| < U32_MAX
    requires p == output + central + EndRecord(h.count, |central|, |output|)
    requires h == End(END_SIGNATURE, 0, 0, h.count, h.count, |central|, |output|, 0)
    ensures |p| == |output| + |central| + 22 && ReadEnd(p, |p| - 22) == Some(h)
  {
    assert EndOf(h.count, |central|, |output|) == h;
    EndBack(h, output + central);
  }

  lemma FilesReadBack(f: Format, es: seq<Entry>, end: seq<byte>)
    requires forall e | e in es :: ReadsBack(f, e)
    requires |Locals(f, es)| < U32_MAX && DistinctNames(Views(f, es, 0))
    ensures ReadFiles(f, Locals(f, es) + Directories(f, es, 0) + end, |Locals(f, es)|, |es|) == Some(es)
  {
    var output, central := Locals(f, es), Directories(f, es, 0);
    DirectoryReadsBack(f, output, es, 0, end);
    EntriesReadBack(f, [], es, central + end);
    assert [] + output + (central + end) == output + central + end;
  }

  lemma ViewsDistinct(lib: Libraries, es: seq<Entry>, limits: Limits)
    requires Valid(lib, es, limits)
    ensures DistinctNames(Views(Zip(lib), es, 0))
  {
    ViewNames(lib, es, 0);
    var cs := Views(Zip(lib), es, 0);
    forall i, j | 0 <= i < j < |cs| ensures cs[i].name != cs[j].name {
      RawNamesDiffer(lib, es, limits, i, j);
    }
  }

  lemma ReadArchiveFrom(lib: Libraries, payload: seq<byte>, h: End, es: seq<Entry>, limits: Limits)
    requires 22 <= |payload| <= limits.archiveBytes
    requires ReadEnd(payload, |payload| - 22) == Some(h) && GoodEnd(h, |payload| - 22, limits)
    requires ReadFiles(Zip(lib), payload, h.start, h.count) == Some(es) && WithinLimits(lib, es, limits)
    ensures ReadArchive(lib, payload, limits) == Some(es)
  {
  }

  lemma ReadArchiveOfSmall(lib: Libraries, f: Format, es: seq<Entry>, limits: Limits)
    requires f == Zip(lib) && forall e | e in es :: ReadsBack(f, e)
    requires |es| < U16_MAX && |es| <= limits.entries && WithinLimits(lib, es, limits)
    requires |Locals(f, es)| + |Directories(f, es, 0)| < U32_MAX && DistinctNames(Views(f, es, 0))
    requires |Encoding(lib, es)| <= limits.archiveBytes
    ensures ReadArchive(lib, Encoding(lib, es), limits) == Some(es)
  {
    var output, central := Locals(f, es), Directories(f, es, 0);
    var end := EndRecord(|es|, |central|, |output|);
    var h := End(END_SIGNATURE, 0, 0, |es|, |es|, |central|, |output|, 0);
    FilesReadBack(f, es, end);
    var p := output + central + end;
    EncodingEnd(p, output, central, h);
    assert Encoding(lib, es) == p;
    assert GoodEnd(h, |p| - 22, limits);
    ReadArchiveFrom(lib, p, h, es, limits);
  }

  /** Whatever a valid list encodes to is read back as that list. */
  lemma ReadArchiveOfEncoding(lib: Libraries, es: seq<Entry>, limits: Limits)
    requires Valid(lib, es, limits) && |Encoding(lib, es)| <= limits.archiveBytes
    ensures ReadArchive(lib, Encoding(lib, es), limits) == Some(es)
  {
    NoFieldOverflows(lib, es, limits);
    ValidReadsBack(lib, es, limits);
    ViewsDistinct(lib, es, limits);
    ReadArchiveOfSmall(lib, Zip(lib), es, limits);
  }

  /** Decoding accepts exactly the encodings, each as the one list it comes from. */
  lemma DecodedExactly(lib: Libraries, payload: seq<byte>, limits: Limits, es: seq<Entry>)
    ensures Decoded(lib, payload, limits) == Some(es) <==>
            Encoded(lib, es, limits) == Some(payload) && |payload| <= limits.archiveBytes
  {
    if Encoded(lib, es, limits) == Some(payload) && |payload| <= limits.archiveBytes {
      ReadArchiveOfEncoding(lib, es, limits);
    }
  }

  /** Reading with room to spare finds every valid list, the empty one included. */
  lemma ReadsWithRoom(lib: Libraries, es: seq<Entry>, limits: Limits)
    requires Valid(lib, es, limits)
    ensures ReadArchive(lib, Encoding(lib, es), limits.(archiveBytes := USIZE_MAX)) == Some(es)
  {
    var wide := limits.(archiveBytes := USIZE_MAX);
    ExactSize(lib, es);
    assert EntriesFit(lib, es, wide) by {
      assert forall e | e in es :: PortableEntry(lib, e, limits) && PortableEntry(lib, e, wide);
    }
    assert ArchiveSize(es) <= USIZE_MAX;
    ReadArchiveOfEncoding(lib, es, wide);
  }

  /** No two lists share an encoding. */
  lemma EncodedInjective(lib: Libraries, es: seq<Entry>, fs: seq<Entry>, limits: Limits)
    requires Encoded(lib, es, limits).Some? && Encoded(lib, es, limits) == Encoded(lib, fs, limits)
    ensures es == fs
  {
    ReadsWithRoom(lib, es, limits);
    ReadsWithRoom(lib, fs, limits);
  }

  /** A nonempty list keeps its encoding within the size it was admitted under, so decoding
      under the limits of the encoder always succeeds. */
  lemma RoundTrip(lib: Libraries, es: seq<Entry>, limits: Limits)
    requires Valid(lib, es, limits)
    ensures Decoded(lib, Encoding(lib, es), limits) == Some(es) <==>
            es != [] || limits.archiveBytes >= 22
  {
    ExactSize(lib, es);
    DecodedExactly(lib, Encoding(lib, es), limits, es);
  }

  // ---- The list whose conflict the scan misses passes the whole validation --------

  lemma ShortPart(part: string)
    requires part in {"a", "a-b", "A", "b"}
    ensures OrdinaryPart(part)
  {
    ShortStem(part);
    DeviceExactly(part);
  }

  lemma ShortStem(part: string)
    requires part in {"a", "a-b", "A", "b"}
    ensures !ReservedDevice(part)
  {
    StemOf(part, "");
    var stem := Stem(part);
    assert |stem| == |part| by { UpperSize(part); }
    assert |stem| <= 1 || stem == "A-B";
    forall d | d in DEVICES ensures d != stem {
      assert |d| >= 3 && d[1] in {'O', 'R', 'U'};
    }
  }

  lemma ShortSafe(lib: Libraries, path: string, parts: seq<string>)
    requires NfcLaw(lib) && Split(path) == parts && |path| <= 3
    requires forall part | part in parts :: part in {"a", "a-b", "A", "b"}
    ensures SafePath(lib, path) && |Utf8.Encode(path)| == |path|
  {
    forall part | part in parts ensures OrdinaryPart(part) {
      ShortPart(part);
    }
    OrdinaryIsSafe(lib, path);
  }

  /** Directory "a", file "a-b" and file "A/b" are a valid archive under any limits with
      room for them, and break the pairwise rules. */
  lemma HiddenIsValid(lib: Libraries, limits: Limits)
    requires lib.fold == AsciiLower && NfcLaw(lib)
    requires limits.entries >= 3 && limits.archiveBytes >= 266
    ensures Valid(lib, HIDDEN, limits) && !PairwisePortable(lib, HIDDEN)
  {
    HiddenSpellingConflict(lib);
    HiddenFits(lib, HIDDEN, limits);
  }

  lemma HiddenEntry(lib: Libraries, e: Entry, limits: Limits)
    requires NfcLaw(lib) && e in HIDDEN
    ensures PortableEntry(lib, e, limits) && |Utf8.Encode(e.path)| == |e.path|
  {
    HiddenParts();
    if e == HIDDEN[0] { ShortSafe(lib, e.path, ["a"]); }
    if e == HIDDEN[1] { ShortSafe(lib, e.path, ["a-b"]); }
    if e == HIDDEN[2] { ShortSafe(lib, e.path, ["A", "b"]); }
  }

  lemma HiddenFits(lib: Libraries, es: seq<Entry>, limits: Limits)
    requires NfcLaw(lib) && es == HIDDEN && limits.entries >= 3 && limits.archiveBytes >= 266
    ensures EntriesFit(lib, es, limits)
  {
    forall e | e in es ensures PortableEntry(lib, e, limits) {
      HiddenEntry(lib, e, limits);
    }
    forall i | 0 <= i < 3 ensures |Utf8.Encode(es[i].path)| == |es[i].path| {
      assert es[i] in HIDDEN;
      HiddenEntry(lib, es[i], limits);
    }
    assert NameSize(es[0]) == 2 && NameSize(es[1]) == 3 && NameSize(es[2]) == 3;
    ThreeSizes(es);
  }

  lemma ThreeSizes(es: seq<Entry>)
    requires |es| == 3 && (forall i | 0 <= i < 3 :: es[i].bytes == [])
    requires NameSize(es[0]) + NameSize(es[1]) + NameSize(es[2]) == 8
    ensures ContentSize(es) == 0 && ArchiveSize(es) == 266
  {
    var b, c := es[1..], es[2..];
    assert b[0] == es[1] && c[0] == es[2] && b[1..] == c && c[1..] == [];
    assert RecordSizes(c) == 76 + 2 * NameSize(c[0]) && ContentSize(c) == 0;
    assert RecordSizes(b) == 76 + 2 * NameSize(b[0]) + RecordSizes(c) && ContentSize(b) == 0;
  }
}
