/** What component trees promise: one byte form per set of files, and a reader that accepts
    exactly that form. */
module TreeRoundTrip {
  import opened Archive
  import opened ArchiveNames
  import opened Artifacts
  import opened ByteOrder
  import opened Canonical
  import opened CanonicalBytes
  import opened Libraries
  import opened Ordering
  import opened PortablePaths
  import opened Utf8
  import opened Wrappers

  // ---- The manifest comes back ----------------------------------------------------

  /** Every string and key is already in NFC. */
  predicate Plain(lib: Libraries, v: Value) {
    match v
    case Null => true
    case Bool(_) => true
    case Int(_) => true
    case Str(text) => lib.nfc(text) == text
    case Arr(items) => forall i | 0 <= i < |items| :: Plain(lib, items[i])
    case Obj(fields) => forall k | k in fields :: lib.nfc(k) == k && Plain(lib, fields[k])
  }

  /** Normalising plain data changes nothing. */
  lemma {:induction false} PlainStays(lib: Libraries, v: Value, depth: nat)
    requires Plain(lib, v) && Normal(lib, v, depth).Some?
    ensures Normal(lib, v, depth) == Some(v)
    decreases v, 0
  {
    match v
    case Null =>
    case Bool(_) =>
    case Int(_) =>
    case Str(_) =>
    case Arr(items) => PlainItemsStay(lib, items, depth + 1);
    case Obj(fields) =>
      var n := Normal(lib, v, depth).value;
      forall k | k in fields ensures k in n.fields && n.fields[k] == fields[k] {
        PlainStays(lib, fields[k], depth + 1);
      }
      SameFields(fields, n.fields);
  }

  lemma {:induction false} PlainItemsStay(lib: Libraries, items: seq<Value>, depth: nat)
    requires (forall i | 0 <= i < |items| :: Plain(lib, items[i])) && NormalItems(lib, items, depth).Some?
    ensures NormalItems(lib, items, depth) == Some(items)
    decreases items, 0
  {
    if items != [] {
      PlainStays(lib, items[0], depth);
      PlainItemsStay(lib, items[1..], depth);
      assert items == [items[0]] + items[1..];
    }
  }

  lemma FieldsPlain(lib: Libraries, fields: map<string, Value>)
    requires NfcLaw(lib) && forall k | k in fields :: Ascii(k) && Plain(lib, fields[k])
    ensures Plain(lib, Obj(fields))
  {
  }

  lemma LinePlain(lib: Libraries, m: Member)
    requires NfcLaw(lib) && DigestLaw(lib) && SafePath(lib, m.path)
    ensures Plain(lib, Line(lib, m))
  {
    assert Ascii("path") && Ascii("digest") && Ascii("byte_length") && Ascii("mode");
    assert Ascii(lib.digest(m.bytes));
    assert Plain(lib, Str(m.path)) && Plain(lib, Str(lib.digest(m.bytes)));
    FieldsPlain(lib, Line(lib, m).fields);
  }

  /** The manifest survives canonicalisation because safe paths are already in NFC. */
  lemma DocumentPlain(lib: Libraries, files: seq<Member>)
    requires NfcLaw(lib) && DigestLaw(lib) && forall m | m in files :: SafePath(lib, m.path)
    ensures Plain(lib, Document(lib, files))
  {
    assert Ascii("format") && Ascii("files") && Ascii(TREE_FORMAT);
    var lines := Lines(lib, files);
    forall i | 0 <= i < |lines| ensures Plain(lib, lines[i]) {
      assert files[i] in files;
      LinePlain(lib, files[i]);
    }
    assert Plain(lib, Arr(lines)) && Plain(lib, Str(TREE_FORMAT));
  }

  lemma ManifestReadsBack(lib: Libraries, files: seq<Member>, manifest: seq<byte>)
    requires NfcLaw(lib) && DigestLaw(lib) && forall m | m in files :: SafePath(lib, m.path)
    requires Bytes(lib, Document(lib, files)) == Some(manifest) && |manifest| <= MAX_FILE_BYTES
    ensures Parse(lib, manifest) == Some(Document(lib, files))
  {
    var v := Document(lib, files);
    BytesFixedPoint(lib, v);
    DocumentPlain(lib, files);
    PlainStays(lib, v, 0);
  }

  // ---- The files come back --------------------------------------------------------

  ghost predicate DistinctPaths(es: seq<Entry>) {
    forall i, j {:trigger es[i].path, es[j].path} | 0 <= i < j < |es| :: es[i].path != es[j].path
  }

  ghost predicate IndexOf(index: Index, es: seq<Entry>) {
    && (forall e | e in es :: e.path in index && index[e.path] == (e.bytes, e.mode))
    && (forall p | p in index :: exists e | e in es :: e.path == p)
  }

  lemma IndexOfOneMore(index: Index, es: seq<Entry>, e: Entry)
    requires IndexOf(index, es) && forall x | x in es :: x.path != e.path
    ensures IndexOf(index[e.path := (e.bytes, e.mode)], es + [e])
  {
    var more := index[e.path := (e.bytes, e.mode)];
    forall p | p in more ensures exists x | x in es + [e] :: x.path == p {
      if p == e.path {
        assert e in es + [e];
      } else {
        var x :| x in es && x.path == p;
        assert x in es + [e];
      }
    }
  }

  lemma DistinctInit(es: seq<Entry>, before: seq<Entry>, last: Entry)
    requires DistinctPaths(es) && es == before + [last]
    ensures DistinctPaths(before) && forall x | x in before :: x.path != last.path
  {
    forall x | x in before ensures x.path != last.path {
      var i :| 0 <= i < |before| && before[i] == x;
      assert es[i].path != es[|before|].path;
    }
    forall i, j | 0 <= i < j < |before| ensures before[i].path != before[j].path {
      assert es[i].path != es[j].path;
    }
  }

  lemma {:induction false} IndexedMeaning(es: seq<Entry>)
    requires DistinctPaths(es)
    ensures IndexOf(Indexed(es), es)
  {
    if es == [] {
      assert IndexOf(map[], es);
    } else {
      var n := |es| - 1;
      var before, last := es[..n], es[n];
      assert es == before + [last];
      DistinctInit(es, before, last);
      IndexedMeaning(before);
      IndexOfOneMore(Indexed(before), before, last);
    }
  }

  /** Where a file lies in the archive. */
  function Place(): string -> string {
    (p: string) => PREFIX + p
  }

  ghost predicate Places(place: string -> string, index: Index, files: seq<Member>) {
    && (forall m | m in files :: place(m.path) in index && index[place(m.path)] == (m.bytes, m.mode))
    && (forall p | p in index :: exists m | m in files :: place(m.path) == p)
  }

  lemma TakesLine(lib: Libraries, index: Index, m: Member)
    requires SafePath(lib, m.path)
    requires PREFIX + m.path in index && index[PREFIX + m.path] == (m.bytes, m.mode)
    ensures TakeFile(lib, index, Line(lib, m)) == Some((m, index - {PREFIX + m.path}))
  {
    var fields := Line(lib, m).fields;
    assert fields.Keys == {"path", "digest", "byte_length", "mode"};
    assert |fields| == |fields.Keys| == 4;
  }

  lemma SamePlace(p: string, q: string)
    requires PREFIX + p == PREFIX + q
    ensures p == q
  {
    assert p == (PREFIX + p)[|PREFIX|..];
  }

  lemma PlacesOneLess(place: string -> string, index: Index, m: Member, rest: seq<Member>)
    requires Places(place, index, [m] + rest) && forall x | x in rest :: place(x.path) != place(m.path)
    ensures place(m.path) in index && index[place(m.path)] == (m.bytes, m.mode)
    ensures Places(place, index - {place(m.path)}, rest)
  {
    var all := [m] + rest;
    assert m in all && forall x | x in rest :: x in all;
    forall p | p in index - {place(m.path)} ensures exists x | x in rest :: place(x.path) == p {
      var x :| x in all && place(x.path) == p;
      assert x in rest;
    }
  }

  lemma FirstPlace(files: seq<Member>)
    requires files != [] && DistinctKeys(PathKey(), files)
    ensures forall x | x in files[1..] :: Place()(x.path) != Place()(files[0].path)
  {
    forall x | x in files[1..] ensures Place()(x.path) != Place()(files[0].path) {
      var i :| 0 < i < |files| && files[i] == x;
      assert PathKey()(files[0]) != PathKey()(files[i]);
      if PREFIX + x.path == PREFIX + files[0].path { SamePlace(x.path, files[0].path); }
    }
  }

  lemma FirstLine(lib: Libraries, files: seq<Member>)
    requires files != []
    ensures Lines(lib, files) == [Line(lib, files[0])] + Lines(lib, files[1..])
  {
  }

  lemma TakesOneMore(lib: Libraries, index: Index, line: Value, lines: seq<Value>, m: Member, left: Index,
                     files: seq<Member>, end: Index)
    requires TakeFile(lib, index, line) == Some((m, left))
    requires TakeFiles(lib, left, lines) == Some((files, end))
    ensures TakeFiles(lib, index, [line] + lines) == Some(([m] + files, end))
  {
    assert ([line] + lines)[1..] == lines;
  }

  lemma {:induction false} TakesLines(lib: Libraries, index: Index, files: seq<Member>)
    requires (forall m | m in files :: SafePath(lib, m.path)) && DistinctKeys(PathKey(), files)
    requires Places(Place(), index, files)
    ensures TakeFiles(lib, index, Lines(lib, files)) == Some((files, map[]))
  {
    if files == [] {
      assert index == map[];
    } else {
      var m, rest := files[0], files[1..];
      assert m in files && files == [m] + rest;
      FirstPlace(files);
      DistinctTail(PathKey(), files);
      PlacesOneLess(Place(), index, m, rest);
      TakesLine(lib, index, m);
      TakesLines(lib, index - {PREFIX + m.path}, rest);
      FirstLine(lib, files);
      TakesOneMore(lib, index, Line(lib, m), Lines(lib, rest), m, index - {PREFIX + m.path}, rest, map[]);
    }
  }

  // ---- The reader's limits --------------------------------------------------------

  lemma {:induction false} ContentOfEntries(files: seq<Member>)
    ensures ContentSize(Entries(files)) == Content(files)
  {
    if files != [] {
      ContentOfEntries(files[1..]);
      assert Entries(files)[1..] == Entries(files[1..]);
    }
  }

  lemma {:induction false} RecordBound(lib: Libraries, es: seq<Entry>, limits: Limits)
    requires forall e | e in es :: e.kind.File? && PortableEntry(lib, e, limits)
    ensures RecordSizes(es) <= |es| * 2124 + ContentSize(es)
  {
    if es != [] {
      assert es[0] in es && PortableEntry(lib, es[0], limits);
      RecordBound(lib, es[1..], limits);
    }
  }

  lemma ContentOfTree(manifest: seq<byte>, files: seq<Member>)
    ensures Content(TreeMembers(manifest, files)) == |manifest| + Content(files)
  {
    var placed := TreeMembers(manifest, files)[1..];
    assert forall i | 0 <= i < |files| :: placed[i] == Placed(files[i]);
    ContentOfPlaced(files, placed);
  }

  lemma {:induction false} ContentOfPlaced(files: seq<Member>, placed: seq<Member>)
    requires |placed| == |files| && forall i | 0 <= i < |files| :: placed[i] == Placed(files[i])
    ensures Content(placed) == Content(files)
  {
    if files != [] {
      ContentOfPlaced(files[1..], placed[1..]);
    }
  }

  /** Nothing a tree is written as goes beyond the limits it is read under. */
  lemma WithinReaderLimits(lib: Libraries, es: seq<Entry>)
    requires Valid(lib, es, STORED) && forall e | e in es :: e.kind.File?
    requires |es| <= MAX_FILES + 1 && ContentSize(es) <= MAX_TREE_BYTES
    ensures Valid(lib, es, TREE) && |Encoding(lib, es)| <= TREE.archiveBytes
  {
    forall e | e in es ensures PortableEntry(lib, e, TREE) {
      assert PortableEntry(lib, e, STORED);
    }
    RecordBound(lib, es, TREE);
    assert |es| * 2124 <= (MAX_FILES + 1) * 2124;
    ExactSize(lib, es);
  }

  // ---- Main results ---------------------------------------------------------------

  lemma FitDistinctPaths(lib: Libraries, files: seq<Member>, maxFiles: nat, maxBytes: nat)
    requires MembersFit(lib, files, maxFiles, maxBytes)
    ensures DistinctKeys(PathKey(), files)
  {
    forall i, j | 0 <= i < j < |files| ensures PathKey()(files[i]) != PathKey()(files[j]) {
      assert NameKey(lib)(files[i]) != NameKey(lib)(files[j]);
      if PathKey()(files[i]) == PathKey()(files[j]) { CodesInjective(files[i].path, files[j].path); }
    }
  }

  lemma SameOrder(lib: Libraries, files: seq<Member>, others: seq<Member>)
    requires MembersFit(lib, files, MAX_FILES, MAX_TREE_BYTES) && MembersFit(lib, others, MAX_FILES, MAX_TREE_BYTES)
    requires multiset(files) == multiset(others)
    ensures Sort(PathKey(), files) == Sort(PathKey(), others)
  {
    FitDistinctPaths(lib, files, MAX_FILES, MAX_TREE_BYTES);
    FitDistinctPaths(lib, others, MAX_FILES, MAX_TREE_BYTES);
    SameMembers(files, others);
    SortPermutation(PathKey(), files, others);
  }

  /** The order in which the files are given does not matter. */
  lemma PermutationEncodesAlike(lib: Libraries, files: seq<Member>, others: seq<Member>)
    requires multiset(files) == multiset(others)
    ensures EncodedTree(lib, files) == EncodedTree(lib, others)
  {
    if MembersFit(lib, files, MAX_FILES, MAX_TREE_BYTES) {
      FitPermutes(lib, files, others, MAX_FILES, MAX_TREE_BYTES);
      SameOrder(lib, files, others);
      TotalPermutation(ByteCount(), files, others);
    } else if MembersFit(lib, others, MAX_FILES, MAX_TREE_BYTES) {
      FitPermutes(lib, others, files, MAX_FILES, MAX_TREE_BYTES);
    }
  }

  /** What a successful writer has established. */
  lemma TreeParts(lib: Libraries, files: seq<Member>, payload: seq<byte>)
    returns (ordered: seq<Member>, manifest: seq<byte>)
    requires EncodedTree(lib, files) == Some(payload)
    ensures MembersFit(lib, files, MAX_FILES, MAX_TREE_BYTES)
    ensures ordered == Sort(PathKey(), files) && Bytes(lib, Document(lib, ordered)) == Some(manifest)
    ensures |manifest| + Content(files) <= MAX_TREE_BYTES
    ensures Stored(lib, TreeMembers(manifest, ordered)) == Some(payload)
  {
    ordered := Sort(PathKey(), files);
    manifest := Bytes(lib, Document(lib, ordered)).value;
  }

  lemma MembersAsEntries(lib: Libraries, members: seq<Member>, maxFiles: nat, maxBytes: nat)
    requires MembersFit(lib, members, maxFiles, maxBytes)
    ensures DistinctPaths(Entries(members)) && forall e | e in Entries(members) :: TreeEntry(e)
  {
    var es := Entries(members);
    FitDistinctPaths(lib, members, maxFiles, maxBytes);
    forall i, j | 0 <= i < j < |es| ensures es[i].path != es[j].path {
      assert PathKey()(members[i]) != PathKey()(members[j]);
    }
    forall e | e in es ensures TreeEntry(e) {
      var i :| 0 <= i < |es| && es[i] == e;
      assert PortableMember(lib, members[i]);
    }
  }

  lemma StoredWithinReader(lib: Libraries, members: seq<Member>, payload: seq<byte>)
    requires Stored(lib, members) == Some(payload)
    requires |members| <= MAX_FILES + 1 && Content(members) <= MAX_TREE_BYTES
    ensures var es := Entries(members);
            && Encoded(lib, es, TREE) == Some(payload) && |payload| <= TREE.archiveBytes
            && DistinctPaths(es) && forall e | e in es :: TreeEntry(e)
  {
    MembersAsEntries(lib, members, 2000, 64 * 1024 * 1024);
    ContentOfEntries(members);
    WithinReaderLimits(lib, Entries(members));
  }

  /** The archive of a written tree, under the reader's limits. */
  lemma TreeArchive(lib: Libraries, files: seq<Member>, payload: seq<byte>)
    returns (ordered: seq<Member>, manifest: seq<byte>)
    requires EncodedTree(lib, files) == Some(payload)
    ensures ordered == Sort(PathKey(), files) && Bytes(lib, Document(lib, ordered)) == Some(manifest)
    ensures |manifest| <= MAX_FILE_BYTES
    ensures var es := Entries(TreeMembers(manifest, ordered));
            && Encoded(lib, es, TREE) == Some(payload) && |payload| <= TREE.archiveBytes
            && DistinctPaths(es) && forall e | e in es :: TreeEntry(e)
  {
    ordered, manifest := TreeParts(lib, files, payload);
    var members := TreeMembers(manifest, ordered);
    TotalPermutation(ByteCount(), ordered, files);
    ContentOfTree(manifest, ordered);
    StoredWithinReader(lib, members, payload);
    assert members[0] in members && PortableMember(lib, members[0]);
  }

  lemma PlacesOf(place: string -> string, index: Index, first: Entry, placed: seq<Entry>, files: seq<Member>)
    requires IndexOf(index, [first] + placed) && |placed| == |files|
    requires forall i | 0 <= i < |files| :: placed[i] == AsEntry(files[i].(path := place(files[i].path)))
    requires forall m | m in files :: place(m.path) != first.path
    ensures first.path in index && index[first.path] == (first.bytes, first.mode)
    ensures Places(place, index - {first.path}, files)
  {
    var es := [first] + placed;
    assert es[0] in es;
    forall m | m in files
      ensures place(m.path) in index && index[place(m.path)] == (m.bytes, m.mode)
    {
      var i :| 0 <= i < |files| && files[i] == m;
      assert placed[i] in es;
    }
    forall p | p in index - {first.path} ensures exists m | m in files :: place(m.path) == p {
      var e :| e in es && e.path == p;
      var i :| 0 <= i < |placed| && placed[i] == e;
      assert files[i] in files;
    }
  }

  lemma EntriesOfTree(manifest: seq<byte>, files: seq<Member>, es: seq<Entry>)
    requires es == Entries(TreeMembers(manifest, files))
    ensures |es| == |files| + 1 && es[0] == Entry(MANIFEST, manifest, 0x1A4, File)
    ensures forall i | 0 <= i < |files| ::
              es[1..][i] == AsEntry(files[i].(path := Place()(files[i].path)))
  {
  }

  lemma IndexPlaces(manifest: seq<byte>, files: seq<Member>, index: Index, es: seq<Entry>)
    requires es == Entries(TreeMembers(manifest, files)) && IndexOf(index, es)
    ensures MANIFEST in index && index[MANIFEST] == (manifest, 0x1A4)
    ensures Places(Place(), index - {MANIFEST}, files)
  {
    EntriesOfTree(manifest, files, es);
    var first, placed := es[0], es[1..];
    assert es == [first] + placed;
    forall m | m in files ensures Place()(m.path) != first.path {
      PlaceApart(m.path);
    }
    PlacesOf(Place(), index, first, placed, files);
  }

  lemma PlaceApart(path: string)
    ensures Place()(path) != MANIFEST
  {
    assert Place()(path)[0] == 'f' != MANIFEST[0];
  }

  lemma DocumentFields(lib: Libraries, files: seq<Member>)
    requires |files| <= MAX_FILES
    ensures TreeDocument(Document(lib, files)) && Field(Document(lib, files), "files") == Arr(Lines(lib, files))
  {
    var document := Document(lib, files);
    assert document.fields.Keys == {"format", "files"} && |document.fields| == |document.fields.Keys|;
  }

  lemma ReadTreeFrom(lib: Libraries, es: seq<Entry>, manifest: seq<byte>, document: Value, files: seq<Member>)
    requires (forall e | e in es :: TreeEntry(e)) && MANIFEST in Indexed(es)
    requires Indexed(es)[MANIFEST] == (manifest, 0x1A4)
    requires Parse(lib, manifest) == Some(document) && Bytes(lib, document) == Some(manifest)
    requires TreeDocument(document)
    requires TakeFiles(lib, Indexed(es) - {MANIFEST}, Field(document, "files").items) == Some((files, map[]))
    ensures ReadTree(lib, es) == Some(files)
  {
  }

  lemma ReadsTree(lib: Libraries, files: seq<Member>, manifest: seq<byte>, es: seq<Entry>)
    requires NfcLaw(lib) && DigestLaw(lib) && forall m | m in files :: SafePath(lib, m.path)
    requires |files| <= MAX_FILES && DistinctKeys(PathKey(), files)
    requires Bytes(lib, Document(lib, files)) == Some(manifest) && |manifest| <= MAX_FILE_BYTES
    requires es == Entries(TreeMembers(manifest, files)) && DistinctPaths(es)
    requires forall e | e in es :: TreeEntry(e)
    ensures ReadTree(lib, es) == Some(files)
  {
    IndexedMeaning(es);
    var index := Indexed(es);
    IndexPlaces(manifest, files, index, es);
    ManifestReadsBack(lib, files, manifest);
    TakesLines(lib, index - {MANIFEST}, files);
    DocumentFields(lib, files);
    ReadTreeFrom(lib, es, manifest, Document(lib, files), files);
  }

  lemma TreeReadsSorted(lib: Libraries, files: seq<Member>, payload: seq<byte>)
    requires NfcLaw(lib) && DigestLaw(lib) && EncodedTree(lib, files) == Some(payload)
    ensures DecodedTree(lib, payload) == Some(Sort(PathKey(), files))
  {
    var ordered, manifest := TreeArchive(lib, files, payload);
    var es := Entries(TreeMembers(manifest, ordered));
    DecodedExactly(lib, payload, TREE, es);
    FitPermutes(lib, files, ordered, MAX_FILES, MAX_TREE_BYTES);
    FitDistinctPaths(lib, ordered, MAX_FILES, MAX_TREE_BYTES);
    forall m | m in ordered ensures SafePath(lib, m.path) {
      assert PortableMember(lib, m);
    }
    ReadsTree(lib, ordered, manifest, es);
    PermutationEncodesAlike(lib, files, ordered);
  }

  lemma DecodedIsEncoded(lib: Libraries, payload: seq<byte>, files: seq<Member>)
    requires DecodedTree(lib, payload) == Some(files)
    ensures EncodedTree(lib, files) == Some(payload)
  {
    assert Rewritten(lib, files, payload);
  }

  lemma WrittenInOrder(lib: Libraries, files: seq<Member>)
    requires EncodedTree(lib, files).Some?
    ensures Sort(PathKey(), files) == files <==> Increasing(PathKey(), files)
  {
    FitDistinctPaths(lib, files, MAX_FILES, MAX_TREE_BYTES);
    SortedExactly(PathKey(), files);
  }

  /** Strictly increasing in the bytes of the path. */
  ghost predicate InPathOrder(files: seq<Member>) {
    forall i, j | 0 <= i < j < |files| :: TextBefore(files[i].path, files[j].path)
  }

  lemma PathOrder(files: seq<Member>)
    ensures Increasing(PathKey(), files) <==> InPathOrder(files)
  {
    forall i, j | 0 <= i < j < |files|
      ensures Less(PathKey()(files[i]), PathKey()(files[j])) <==> TextBefore(files[i].path, files[j].path)
    {
      TextOrder(files[i].path, files[j].path);
    }
  }

  /** Reading a written tree gives the same files, in the order of the bytes of their paths. */
  lemma TreeReadsBack(lib: Libraries, files: seq<Member>, payload: seq<byte>) returns (read: seq<Member>)
    requires NfcLaw(lib) && DigestLaw(lib) && EncodedTree(lib, files) == Some(payload)
    ensures DecodedTree(lib, payload) == Some(read)
    ensures multiset(read) == multiset(files) && InPathOrder(read)
  {
    TreeReadsSorted(lib, files, payload);
    read := Sort(PathKey(), files);
    FitDistinctPaths(lib, files, MAX_FILES, MAX_TREE_BYTES);
    SortIncreasing(PathKey(), files);
    PathOrder(read);
  }

  /** The reader accepts exactly the written trees, and returns their files in the order of
      the bytes of their paths. */
  lemma DecodedTreeExactly(lib: Libraries, payload: seq<byte>, files: seq<Member>)
    requires NfcLaw(lib) && DigestLaw(lib)
    ensures DecodedTree(lib, payload) == Some(files) <==>
            EncodedTree(lib, files) == Some(payload) && InPathOrder(files)
  {
    var read, written := DecodedTree(lib, payload), EncodedTree(lib, files);
    PathOrder(files);
    if read == Some(files) { DecodedIsEncoded(lib, payload, files); }
    if written == Some(payload) {
      TreeReadsSorted(lib, files, payload);
      WrittenInOrder(lib, files);
    }
  }

  /** A payload the reader refuses is no tree at all. */
  lemma RefusedIsNoTree(lib: Libraries, payload: seq<byte>, files: seq<Member>)
    requires NfcLaw(lib) && DigestLaw(lib) && DecodedTree(lib, payload).None?
    ensures EncodedTree(lib, files) != Some(payload)
  {
    if EncodedTree(lib, files) == Some(payload) { TreeReadsSorted(lib, files, payload); }
  }

  /** Two lists of files share a byte form exactly when they hold the same files. */
  lemma TreeBytesDecideEquality(lib: Libraries, files: seq<Member>, others: seq<Member>)
    requires NfcLaw(lib) && DigestLaw(lib)
    requires EncodedTree(lib, files).Some? && EncodedTree(lib, others).Some?
    ensures EncodedTree(lib, files) == EncodedTree(lib, others) <==> multiset(files) == multiset(others)
  {
    if EncodedTree(lib, files) == EncodedTree(lib, others) {
      TreeReadsSorted(lib, files, EncodedTree(lib, files).value);
      TreeReadsSorted(lib, others, EncodedTree(lib, others).value);
      assert multiset(Sort(PathKey(), files)) == multiset(Sort(PathKey(), others));
    }
    if multiset(files) == multiset(others) { PermutationEncodesAlike(lib, files, others); }
  }

  /** Every written tree obeys the pairwise name rules and stays within the reader's limits,
      although the archive writer it goes through would allow almost twice the size. */
  lemma WrittenTreeIsPortable(lib: Libraries, files: seq<Member>)
    requires FoldLaw(lib) && EncodedTree(lib, files).Some?
    ensures |EncodedTree(lib, files).value| <= TREE.archiveBytes
    ensures var ordered := Sort(PathKey(), files);
            exists manifest ::
              && Bytes(lib, Document(lib, ordered)) == Some(manifest)
              && Valid(lib, Entries(TreeMembers(manifest, ordered)), TREE)
              && PairwisePortable(lib, Entries(TreeMembers(manifest, ordered)))
  {
    var ordered, manifest := TreeArchive(lib, files, EncodedTree(lib, files).value);
    var es := Entries(TreeMembers(manifest, ordered));
    AcceptedFilesExactly(lib, es);
  }

  method DecodeTree(lib: Libraries, payload: seq<byte>) returns (r: Option<seq<Member>>)
    requires NfcLaw(lib) && DigestLaw(lib)
    ensures forall files :: r == Some(files) <==>
              EncodedTree(lib, files) == Some(payload) && InPathOrder(files)
    ensures r.None? ==> forall files :: EncodedTree(lib, files) != Some(payload)
  {
    r := DecodeChecked(lib, payload);
    forall files
      ensures r == Some(files) <==> EncodedTree(lib, files) == Some(payload) && InPathOrder(files)
      ensures r.None? ==> EncodedTree(lib, files) != Some(payload)
    {
      DecodedTreeExactly(lib, payload, files);
      if r.None? { RefusedIsNoTree(lib, payload, files); }
    }
  }
}
