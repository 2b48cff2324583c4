/** Exactly which lists of files are written as component trees. */
module TreeSuccess {
  import opened Archive
  import opened ArchiveNames
  import opened Artifacts
  import opened Canonical
  import opened CanonicalBytes
  import opened Libraries
  import opened Ordering
  import opened PortablePaths
  import opened SafePaths
  import opened TreeRoundTrip
  import opened Wrappers
  import Text
  import Utf8

  /** The size of the manifest of the files, in path order. */
  function ManifestSize(lib: Libraries, files: seq<Member>): nat {
    |Serialize(ByUnit, Document(lib, Sort(PathKey(), files)))|
  }

  /** A safe path with room for its directory and without byte-order marks, mode 644 or 755,
      and up to 4 MiB. */
  predicate FileFits(lib: Libraries, m: Member) {
    && SafePath(lib, m.path) && |Utf8.Encode(m.path)| <= 1018 && BOM !in m.path
    && (m.mode == 0x1A4 || m.mode == 0x1ED) && |m.bytes| <= 0x40_0000
  }

  /** Up to 1000 files of 32 MiB in all, manifest included, under the pairwise name rules. */
  ghost predicate Writable(lib: Libraries, files: seq<Member>) {
    && |files| <= 1000
    && (forall m | m in files :: FileFits(lib, m))
    && PairwisePortable(lib, Entries(files))
    && ManifestSize(lib, files) <= 0x40_0000
    && ManifestSize(lib, files) + Content(files) <= 0x200_0000
  }

  // ---- The manifest ---------------------------------------------------------------

  lemma PlainKeys(lib: Libraries, v: Value, depth: nat)
    requires NfcLaw(lib) && v.Obj? && depth <= MAX_DEPTH && forall k | k in v.fields :: Ascii(k)
    ensures Normal(lib, v, depth).Some? <==> forall k | k in v.fields :: Normal(lib, v.fields[k], depth + 1).Some?
  {
    assert forall k | k in v.fields :: lib.nfc(k) == k && BOM !in k;
    assert KeysStayApart(lib, v.fields.Keys);
  }

  lemma FourFields(lib: Libraries, v: Value, depth: nat, a: string, b: string, c: string, d: string)
    requires NfcLaw(lib) && v.Obj? && depth <= MAX_DEPTH && v.fields.Keys == {a, b, c, d}
    requires Ascii(a) && Ascii(b) && Ascii(c) && Ascii(d)
    ensures Normal(lib, v, depth).Some? <==>
            && Normal(lib, v.fields[a], depth + 1).Some? && Normal(lib, v.fields[b], depth + 1).Some?
            && Normal(lib, v.fields[c], depth + 1).Some? && Normal(lib, v.fields[d], depth + 1).Some?
  {
    assert forall k | k in v.fields :: k == a || k == b || k == c || k == d;
    assert a in v.fields && b in v.fields && c in v.fields && d in v.fields;
    PlainKeys(lib, v, depth);
  }

  lemma TwoFields(lib: Libraries, v: Value, depth: nat, a: string, b: string)
    requires NfcLaw(lib) && v.Obj? && depth <= MAX_DEPTH && v.fields.Keys == {a, b} && Ascii(a) && Ascii(b)
    ensures Normal(lib, v, depth).Some? <==>
            Normal(lib, v.fields[a], depth + 1).Some? && Normal(lib, v.fields[b], depth + 1).Some?
  {
    assert forall k | k in v.fields :: k == a || k == b;
    assert a in v.fields && b in v.fields;
    PlainKeys(lib, v, depth);
  }

  lemma StringNormal(lib: Libraries, text: string, depth: nat)
    requires depth <= MAX_DEPTH
    ensures Normal(lib, Str(text), depth).Some? <==> BOM !in text
    ensures Ascii(text) ==> BOM !in text
  {
  }

  lemma LineKeys(lib: Libraries, m: Member)
    ensures Line(lib, m).fields.Keys == {"path", "digest", "byte_length", "mode"}
    ensures Ascii("path") && Ascii("digest") && Ascii("byte_length") && Ascii("mode")
    ensures Line(lib, m).fields["path"] == Str(m.path)
    ensures Line(lib, m).fields["digest"] == Str(lib.digest(m.bytes))
    ensures Line(lib, m).fields["byte_length"] == Int(|m.bytes|)
    ensures Line(lib, m).fields["mode"] == Int(m.mode)
  {
  }

  lemma LineNormal(lib: Libraries, m: Member, depth: nat)
    requires NfcLaw(lib) && DigestLaw(lib) && depth < MAX_DEPTH && PortableMember(lib, m)
    ensures Normal(lib, Line(lib, m), depth).Some? <==> BOM !in m.path
  {
    LineKeys(lib, m);
    FourFields(lib, Line(lib, m), depth, "path", "digest", "byte_length", "mode");
    StringNormal(lib, m.path, depth + 1);
    assert Ascii(lib.digest(m.bytes));
    StringNormal(lib, lib.digest(m.bytes), depth + 1);
    assert Normal(lib, Int(|m.bytes|), depth + 1).Some? && Normal(lib, Int(m.mode), depth + 1).Some?;
  }

  lemma {:induction false} LinesNormal(lib: Libraries, files: seq<Member>, depth: nat)
    requires NfcLaw(lib) && DigestLaw(lib) && depth < MAX_DEPTH
    requires forall m | m in files :: PortableMember(lib, m)
    ensures NormalItems(lib, Lines(lib, files), depth).Some? <==> forall m | m in files :: BOM !in m.path
    decreases |files|
  {
    if files != [] {
      var rest := files[1..];
      FirstLine(lib, files);
      LineNormal(lib, files[0], depth);
      LinesNormal(lib, rest, depth);
      assert Lines(lib, files)[1..] == Lines(lib, rest);
      assert files == [files[0]] + rest && files[0] in files;
      assert forall m :: m in files <==> m == files[0] || m in rest;
    }
  }

  lemma FormatIsAscii(format: string)
    requires format == "ai-stp-component-tree/1"
    ensures Ascii(format) && format == TREE_FORMAT
  {
  }

  lemma DocumentKeys(lib: Libraries, files: seq<Member>)
    ensures Document(lib, files).fields.Keys == {"format", "files"} && Ascii("format") && Ascii("files")
  {
  }

  lemma DocumentFieldsAre(lib: Libraries, files: seq<Member>)
    ensures "format" in Document(lib, files).fields && "files" in Document(lib, files).fields
    ensures Document(lib, files).fields["format"] == Str(TREE_FORMAT)
    ensures Document(lib, files).fields["files"] == Arr(Lines(lib, files))
  {
    assert "format" != "files";
  }

  lemma FormatNormal(lib: Libraries)
    ensures Normal(lib, Str(TREE_FORMAT), 1).Some?
  {
    FormatIsAscii("ai-stp-component-tree/1");
    StringNormal(lib, TREE_FORMAT, 1);
  }

  lemma ArrayNormal(lib: Libraries, items: seq<Value>, depth: nat)
    requires depth <= MAX_DEPTH
    ensures Normal(lib, Arr(items), depth).Some? <==> NormalItems(lib, items, depth + 1).Some?
  {
  }

  lemma ListNormal(lib: Libraries, v: Value, a: string, b: string, format: string, items: seq<Value>)
    requires NfcLaw(lib) && v.Obj? && v.fields.Keys == {a, b} && Ascii(a) && Ascii(b)
    requires v.fields[a] == Str(format) && Normal(lib, Str(format), 1).Some? && v.fields[b] == Arr(items)
    ensures Normal(lib, v, 0).Some? <==> NormalItems(lib, items, 2).Some?
  {
    TwoFields(lib, v, 0, a, b);
    ArrayNormal(lib, items, 1);
  }

  lemma DocumentIsList(lib: Libraries, files: seq<Member>)
    requires NfcLaw(lib)
    ensures Normal(lib, Document(lib, files), 0).Some? <==> NormalItems(lib, Lines(lib, files), 2).Some?
  {
    DocumentKeys(lib, files);
    DocumentFieldsAre(lib, files);
    FormatNormal(lib);
    ListNormal(lib, Document(lib, files), "format", "files", TREE_FORMAT, Lines(lib, files));
  }

  lemma DocumentNormal(lib: Libraries, files: seq<Member>)
    requires NfcLaw(lib) && DigestLaw(lib) && forall m | m in files :: PortableMember(lib, m)
    ensures Normal(lib, Document(lib, files), 0).Some? <==> forall m | m in files :: BOM !in m.path
  {
    DocumentIsList(lib, files);
    LinesNormal(lib, files, 2);
  }

  /** The manifest is written exactly when no path holds a byte-order mark and the text is
      short enough, and it is the document in canonical order. */
  lemma ManifestExactly(lib: Libraries, files: seq<Member>)
    requires NfcLaw(lib) && DigestLaw(lib) && forall m | m in files :: PortableMember(lib, m)
    ensures var v := Document(lib, files);
            Bytes(lib, v) == if (forall m | m in files :: BOM !in m.path) && |Serialize(ByUnit, v)| <= MAX_JSON_BYTES
                             then Some(Serialize(ByUnit, v)) else None
  {
    var v := Document(lib, files);
    DocumentNormal(lib, files);
    BytesMeaning(lib, v);
    SameWidth(v);
    if Normal(lib, v, 0).Some? {
      DocumentPlain(lib, files);
      PlainStays(lib, v, 0);
    }
  }

  // ---- The names ------------------------------------------------------------------

  lemma PlacedParts(path: string)
    ensures Split(PREFIX + path) == ["files"] + Split(path)
  {
    assert PREFIX + path == "files" + "/" + path;
    SplitSlash("files", path);
    Text.SplitWhole('/', "files");
  }

  lemma {:induction false} LowerStays(lib: Libraries, s: string)
    requires AsciiLaw(lib) && forall i | 0 <= i < |s| :: s[i] as int < 0x80 && !('A' <= s[i] <= 'Z')
    ensures Fold(lib, s) == s
  {
    if s != "" {
      LowerStays(lib, s[1..]);
      assert lib.fold(s[0]) == [s[0]] && s == [s[0]] + s[1..];
    }
  }

  lemma LowerNames(lib: Libraries, manifest: string, directory: string)
    requires AsciiLaw(lib) && manifest == "component.json" && directory == "files"
    ensures Fold(lib, manifest) == manifest && Fold(lib, directory) == directory
  {
    LowerStays(lib, manifest);
    LowerStays(lib, directory);
  }

  lemma ManifestPart(manifest: string)
    requires manifest == "component.json"
    ensures Split(manifest) == [manifest]
  {
    Text.SplitWhole('/', manifest);
  }

  lemma ManifestApart(lib: Libraries)
    requires AsciiLaw(lib)
    ensures Split(MANIFEST) == [MANIFEST] && Fold(lib, MANIFEST) != Fold(lib, "files")
  {
    ManifestPart(MANIFEST);
    LowerNames(lib, MANIFEST, "files");
    assert MANIFEST[0] == 'c' && "files"[0] == 'f';
  }

  lemma FoldPartsBelow(lib: Libraries, d: string, p: seq<string>)
    ensures FoldParts(lib, [d] + p) == [Fold(lib, d)] + FoldParts(lib, p)
  {
  }

  /** Below one directory the rules are those above it. */
  lemma AlikeBelow(lib: Libraries, d: string, p: seq<string>, q: seq<string>)
    ensures Alike(lib, [d] + p, [d] + q) <==> Alike(lib, p, q)
  {
    ScanPairMeaning(lib, [d] + p, [d] + q);
    ScanPairMeaning(lib, p, q);
    assert ([d] + p)[1..] == p && ([d] + q)[1..] == q;
  }

  lemma AncestorBelow(lib: Libraries, d: string, p: seq<string>, q: seq<string>)
    ensures FoldedAncestor(lib, [d] + p, [d] + q) <==> FoldedAncestor(lib, p, q)
  {
    if |p| < |q| {
      assert ([d] + q)[..|p| + 1] == [d] + q[..|p|];
      FoldPartsBelow(lib, d, p);
      FoldPartsBelow(lib, d, q[..|p|]);
      var a, b := FoldParts(lib, p), FoldParts(lib, q[..|p|]);
      assert ([Fold(lib, d)] + a)[1..] == a && ([Fold(lib, d)] + b)[1..] == b;
    }
  }

  /** The manifest stands beside everything else. */
  lemma ApartAlike(lib: Libraries, d: string, e: string, p: seq<string>)
    requires Fold(lib, d) != Fold(lib, e)
    ensures Alike(lib, [d], [e] + p) && Alike(lib, [e] + p, [d])
    ensures !FoldedAncestor(lib, [d], [e] + p) && !FoldedAncestor(lib, [e] + p, [d])
  {
    ScanPairMeaning(lib, [d], [e] + p);
    ScanPairMeaning(lib, [e] + p, [d]);
    if p != [] {
      assert ([e] + p)[..1] == [e];
      assert FoldParts(lib, [d])[0] != FoldParts(lib, [e])[0];
    }
  }

  lemma SelfAlike(lib: Libraries, p: seq<string>)
    ensures Alike(lib, p, p) && !FoldedAncestor(lib, p, p)
  {
  }

  ghost predicate PairRules(lib: Libraries, x: Entry, y: Entry) {
    Alike(lib, Parts(x), Parts(y)) && (x.kind.File? ==> !FoldedAncestor(lib, Parts(x), Parts(y)))
  }

  lemma PlacedRules(lib: Libraries, m: Member, n: Member)
    ensures PairRules(lib, AsEntry(Placed(m)), AsEntry(Placed(n))) <==> PairRules(lib, AsEntry(m), AsEntry(n))
  {
    PlacedParts(m.path);
    PlacedParts(n.path);
    AlikeBelow(lib, "files", Split(m.path), Split(n.path));
    AncestorBelow(lib, "files", Split(m.path), Split(n.path));
  }

  lemma ManifestRules(lib: Libraries, manifest: Entry, m: Member)
    requires AsciiLaw(lib) && manifest.path == MANIFEST
    ensures PairRules(lib, manifest, AsEntry(Placed(m))) && PairRules(lib, AsEntry(Placed(m)), manifest)
    ensures PairRules(lib, manifest, manifest)
  {
    ManifestApart(lib);
    PlacedParts(m.path);
    ApartAlike(lib, MANIFEST, "files", Split(m.path));
    SelfAlike(lib, [MANIFEST]);
  }

  lemma PlacedKeys(lib: Libraries, m: Member, n: Member)
    ensures Key(lib)(AsEntry(Placed(m))) == Key(lib)(AsEntry(Placed(n))) <==>
            Key(lib)(AsEntry(m)) == Key(lib)(AsEntry(n))
  {
    var a, b, head := Fold(lib, m.path), Fold(lib, n.path), Fold(lib, PREFIX);
    FoldConcat(lib, PREFIX, m.path);
    FoldConcat(lib, PREFIX, n.path);
    if Codes(head + a) == Codes(head + b) {
      CodesInjective(head + a, head + b);
      assert a == (head + a)[|head|..] && b == (head + b)[|head|..];
    }
    if Codes(a) == Codes(b) { CodesInjective(a, b); }
  }

  lemma ManifestKey(lib: Libraries, manifest: Entry, m: Member)
    requires FoldLaw(lib) && AsciiLaw(lib) && manifest.path == MANIFEST
    ensures Key(lib)(manifest) != Key(lib)(AsEntry(Placed(m)))
  {
    var placed := PREFIX + m.path;
    ManifestApart(lib);
    PlacedParts(m.path);
    FoldEqualParts(lib, MANIFEST, placed);
    assert |FoldParts(lib, Split(placed))| >= 2 && |FoldParts(lib, Split(MANIFEST))| == 1;
    CodesDiffer(Fold(lib, MANIFEST), Fold(lib, placed));
  }

  /** The rules for two entries, as a value. */
  ghost function Rules(lib: Libraries): (Entry, Entry) -> bool {
    (x: Entry, y: Entry) => PairRules(lib, x, y)
  }

  ghost predicate AllPairs(rule: (Entry, Entry) -> bool, es: seq<Entry>) {
    forall i, j | 0 <= i < |es| && 0 <= j < |es| :: rule(es[i], es[j])
  }

  lemma PairwiseByIndex(lib: Libraries, es: seq<Entry>)
    ensures PairwisePortable(lib, es) <==> DistinctKeys(Key(lib), es) && AllPairs(Rules(lib), es)
  {
    if PairwisePortable(lib, es) {
      forall i, j | 0 <= i < |es| && 0 <= j < |es| ensures PairRules(lib, es[i], es[j]) {
        assert es[i] in es && es[j] in es;
      }
    }
    if AllPairs(Rules(lib), es) {
      forall x, y | x in es && y in es ensures PairRules(lib, x, y) {
        var i :| 0 <= i < |es| && es[i] == x;
        var j :| 0 <= j < |es| && es[j] == y;
        assert Rules(lib)(es[i], es[j]);
      }
    }
  }

  lemma FileKey(lib: Libraries, manifest: seq<Utf8.byte>, files: seq<Member>, i: nat, j: nat)
    requires DistinctKeys(Key(lib), Entries(TreeMembers(manifest, files))) && i < j < |files|
    ensures Key(lib)(Entries(files)[i]) != Key(lib)(Entries(files)[j])
  {
    var es := Entries(TreeMembers(manifest, files));
    assert Key(lib)(es[i + 1]) != Key(lib)(es[j + 1]);
    PlacedKeys(lib, files[i], files[j]);
  }

  lemma FileKeys(lib: Libraries, manifest: seq<Utf8.byte>, files: seq<Member>)
    requires DistinctKeys(Key(lib), Entries(TreeMembers(manifest, files)))
    ensures DistinctKeys(Key(lib), Entries(files))
  {
    var fs := Entries(files);
    forall i, j | 0 <= i < j < |fs| ensures Key(lib)(fs[i]) != Key(lib)(fs[j]) {
      FileKey(lib, manifest, files, i, j);
    }
  }

  lemma TreeKey(lib: Libraries, manifest: seq<Utf8.byte>, files: seq<Member>, i: nat, j: nat)
    requires FoldLaw(lib) && AsciiLaw(lib) && DistinctKeys(Key(lib), Entries(files)) && i < j <= |files|
    ensures var es := Entries(TreeMembers(manifest, files)); Key(lib)(es[i]) != Key(lib)(es[j])
  {
    var es, fs := Entries(TreeMembers(manifest, files)), Entries(files);
    if i == 0 {
      ManifestKey(lib, es[0], files[j - 1]);
    } else {
      assert Key(lib)(fs[i - 1]) != Key(lib)(fs[j - 1]);
      PlacedKeys(lib, files[i - 1], files[j - 1]);
    }
  }

  lemma TreeKeys(lib: Libraries, manifest: seq<Utf8.byte>, files: seq<Member>)
    requires FoldLaw(lib) && AsciiLaw(lib)
    ensures DistinctKeys(Key(lib), Entries(TreeMembers(manifest, files))) <==> DistinctKeys(Key(lib), Entries(files))
  {
    var es := Entries(TreeMembers(manifest, files));
    if DistinctKeys(Key(lib), es) { FileKeys(lib, manifest, files); }
    if DistinctKeys(Key(lib), Entries(files)) {
      forall i, j | 0 <= i < j < |es| ensures Key(lib)(es[i]) != Key(lib)(es[j]) {
        TreeKey(lib, manifest, files, i, j);
      }
    }
  }

  lemma TreeTail(manifest: seq<Utf8.byte>, files: seq<Member>) returns (first: Entry, es: seq<Entry>)
    ensures Entries(TreeMembers(manifest, files)) == [first] + es && first.path == MANIFEST
    ensures |es| == |files| && forall i | 0 <= i < |files| :: es[i] == AsEntry(Placed(files[i]))
  {
    var members := TreeMembers(manifest, files);
    var rest := members[1..];
    assert forall i | 0 <= i < |rest| :: rest[i] == members[i + 1];
    assert members == [members[0]] + rest;
    EntriesOneMore(members[0], rest);
    first, es := AsEntry(members[0]), Entries(rest);
  }

  lemma EntriesOneMore(m: Member, rest: seq<Member>)
    ensures Entries([m] + rest) == [AsEntry(m)] + Entries(rest)
  {
  }

  /** One entry more, on good terms with all, and the others' rules carried over. */
  lemma OneMoreEntry(rule: (Entry, Entry) -> bool, first: Entry, es: seq<Entry>, fs: seq<Entry>)
    requires |es| == |fs| && rule(first, first)
    requires forall i | 0 <= i < |es| :: rule(first, es[i]) && rule(es[i], first)
    requires forall i, j | 0 <= i < |es| && 0 <= j < |es| :: rule(es[i], es[j]) <==> rule(fs[i], fs[j])
    ensures AllPairs(rule, [first] + es) <==> AllPairs(rule, fs)
  {
    var all := [first] + es;
    if AllPairs(rule, all) {
      forall i, j | 0 <= i < |fs| && 0 <= j < |fs| ensures rule(fs[i], fs[j]) {
        assert all[i + 1] == es[i] && all[j + 1] == es[j] && rule(all[i + 1], all[j + 1]);
      }
    }
    if AllPairs(rule, fs) {
      forall i, j | 0 <= i < |all| && 0 <= j < |all| ensures rule(all[i], all[j]) {
        if i > 0 && j > 0 { assert rule(fs[i - 1], fs[j - 1]); }
      }
    }
  }

  lemma TreeRules(lib: Libraries, first: Entry, es: seq<Entry>, fs: seq<Entry>, files: seq<Member>)
    requires AsciiLaw(lib) && first.path == MANIFEST && |es| == |fs| == |files|
    requires forall i | 0 <= i < |files| :: es[i] == AsEntry(Placed(files[i])) && fs[i] == AsEntry(files[i])
    ensures Rules(lib)(first, first)
    ensures forall i | 0 <= i < |es| :: Rules(lib)(first, es[i]) && Rules(lib)(es[i], first)
    ensures forall i, j | 0 <= i < |es| && 0 <= j < |es| :: Rules(lib)(es[i], es[j]) <==> Rules(lib)(fs[i], fs[j])
  {
    ManifestRules(lib, first, Member("", [], 0));
    forall i | 0 <= i < |es| ensures Rules(lib)(first, es[i]) && Rules(lib)(es[i], first) {
      ManifestRules(lib, first, files[i]);
    }
    forall i, j | 0 <= i < |es| && 0 <= j < |es| ensures Rules(lib)(es[i], es[j]) <==> Rules(lib)(fs[i], fs[j]) {
      PlacedRules(lib, files[i], files[j]);
    }
  }

  lemma TreePairs(lib: Libraries, manifest: seq<Utf8.byte>, files: seq<Member>)
    requires AsciiLaw(lib)
    ensures AllPairs(Rules(lib), Entries(TreeMembers(manifest, files))) <==> AllPairs(Rules(lib), Entries(files))
  {
    var first, es := TreeTail(manifest, files);
    TreeRules(lib, first, es, Entries(files), files);
    OneMoreEntry(Rules(lib), first, es, Entries(files));
  }

  /** Placing the files below their directory, beside the manifest, changes no rule. */
  lemma TreePairwise(lib: Libraries, manifest: seq<Utf8.byte>, files: seq<Member>)
    requires FoldLaw(lib) && AsciiLaw(lib)
    ensures PairwisePortable(lib, Entries(TreeMembers(manifest, files))) <==> PairwisePortable(lib, Entries(files))
  {
    PairwiseByIndex(lib, Entries(TreeMembers(manifest, files)));
    PairwiseByIndex(lib, Entries(files));
    TreeKeys(lib, manifest, files);
    TreePairs(lib, manifest, files);
  }

  // ---- Fitting lists --------------------------------------------------------------

  lemma NoNameAboveIs(lib: Libraries, path: string, files: seq<Member>)
    ensures NoNameAbove(lib, path, FoldedNames(lib, files)) <==> NoFileAbove(lib, path, Entries(files))
  {
    var es := Entries(files);
    if NoNameAbove(lib, path, FoldedNames(lib, files)) {
      forall n, f | 0 <= n < |path| && path[n] == '/' && f in es && f.kind.File?
        ensures Fold(lib, path[..n]) != Fold(lib, f.path)
      {
        var i :| 0 <= i < |es| && es[i] == f;
        assert files[i] in files && Fold(lib, files[i].path) in FoldedNames(lib, files);
      }
    }
    if NoFileAbove(lib, path, es) {
      forall n | 0 <= n < |path| && path[n] == '/' ensures Fold(lib, path[..n]) !in FoldedNames(lib, files) {
        forall m | m in files ensures Fold(lib, m.path) != Fold(lib, path[..n]) {
          var i :| 0 <= i < |files| && files[i] == m;
          assert es[i] in es;
        }
      }
    }
  }

  ghost predicate NamesFit(lib: Libraries, files: seq<Member>) {
    && DistinctKeys(NameKey(lib), files)
    && forall m | m in files :: NoNameAbove(lib, m.path, FoldedNames(lib, files))
  }

  lemma SameKeys(lib: Libraries, files: seq<Member>)
    ensures DistinctKeys(NameKey(lib), files) <==> DistinctKeys(Key(lib), Entries(files))
  {
    var es := Entries(files);
    forall i | 0 <= i < |files| ensures NameKey(lib)(files[i]) == Key(lib)(es[i]) {
    }
    if DistinctKeys(NameKey(lib), files) {
      forall i, j | 0 <= i < j < |es| ensures Key(lib)(es[i]) != Key(lib)(es[j]) {
        assert NameKey(lib)(files[i]) != NameKey(lib)(files[j]);
      }
    }
    if DistinctKeys(Key(lib), es) {
      forall i, j | 0 <= i < j < |files| ensures NameKey(lib)(files[i]) != NameKey(lib)(files[j]) {
        assert Key(lib)(es[i]) != Key(lib)(es[j]);
      }
    }
  }

  lemma PairwiseNamesFit(lib: Libraries, files: seq<Member>)
    requires FoldLaw(lib) && PairwisePortable(lib, Entries(files))
    ensures NamesFit(lib, files)
  {
    SameKeys(lib, files);
    forall m | m in files ensures NoNameAbove(lib, m.path, FoldedNames(lib, files)) {
      var i :| 0 <= i < |files| && files[i] == m;
      assert Entries(files)[i] in Entries(files);
      NoFileAboveMeaning(lib, m.path, Entries(files));
      NoNameAboveIs(lib, m.path, files);
    }
  }

  lemma ShuffledKeys(lib: Libraries, files: seq<Member>, others: seq<Member>)
    requires multiset(files) == multiset(others) && DistinctKeys(Key(lib), Entries(files))
    ensures DistinctKeys(Key(lib), Entries(others))
  {
    SameKeys(lib, files);
    DistinctPermutes(NameKey(lib), files, others);
    SameKeys(lib, others);
  }

  lemma FewerPairs(rule: (Entry, Entry) -> bool, fs: seq<Entry>, es: seq<Entry>)
    requires AllPairs(rule, fs) && forall e | e in es :: e in fs
    ensures AllPairs(rule, es)
  {
    forall i, j | 0 <= i < |es| && 0 <= j < |es| ensures rule(es[i], es[j]) {
      assert es[i] in fs && es[j] in fs;
      var k :| 0 <= k < |fs| && fs[k] == es[i];
      var l :| 0 <= l < |fs| && fs[l] == es[j];
      assert rule(fs[k], fs[l]);
    }
  }

  lemma ShuffledPairwise(lib: Libraries, files: seq<Member>, others: seq<Member>)
    requires multiset(files) == multiset(others) && PairwisePortable(lib, Entries(files))
    ensures PairwisePortable(lib, Entries(others))
  {
    var fs, es := Entries(files), Entries(others);
    SameMembers(files, others);
    PairwiseByIndex(lib, fs);
    PairwiseByIndex(lib, es);
    ShuffledKeys(lib, files, others);
    forall e | e in es ensures e in fs {
      InEntries(files, others, e);
    }
    FewerPairs(Rules(lib), fs, es);
  }

  lemma InEntries(files: seq<Member>, others: seq<Member>, x: Entry)
    requires (forall m :: m in files <==> m in others) && x in Entries(others)
    ensures x in Entries(files)
  {
    var i :| 0 <= i < |others| && Entries(others)[i] == x;
    assert others[i] in files;
    var j :| 0 <= j < |files| && files[j] == others[i];
    assert Entries(files)[j] == x;
  }

  // ---- Success --------------------------------------------------------------------

  lemma FilesPart(part: string)
    requires part == "files"
    ensures OrdinaryPart(part)
  {
    NoDeviceOfSize(part, part, "");
  }

  lemma ManifestSafe(lib: Libraries, path: string)
    requires NfcLaw(lib) && path == "component.json"
    ensures SafePath(lib, path) && |Utf8.Encode(path)| == 14
  {
    ManifestPart(path);
    ManifestIsOrdinary(path);
    OrdinaryIsSafe(lib, path);
  }

  lemma ManifestIsOrdinary(part: string)
    requires part == "component.json"
    ensures OrdinaryPart(part)
  {
    var name, extension := "component", "json";
    assert part == name + "." + extension;
    NoDeviceOfSize(part, name, extension);
  }

  // What each stage asks of the members of the archive.

  lemma ManifestMember(lib: Libraries, m: Member)
    requires NfcLaw(lib) && m.path == "component.json" && m.mode == 0x1A4 && |m.bytes| <= 0x40_0000
    ensures PortableMember(lib, m) && |Utf8.Encode(m.path)| <= 1024
  {
    ManifestSafe(lib, m.path);
  }

  lemma PlacedMember(lib: Libraries, m: Member)
    requires NfcLaw(lib) && FileFits(lib, m)
    ensures PortableMember(lib, Placed(m))
  {
    FilesPart("files");
    SafeBelow(lib, "files", m.path);
    assert PREFIX + m.path == "files" + "/" + m.path;
  }

  lemma PlacedRoom(lib: Libraries, m: Member)
    requires PortableMember(lib, Placed(m))
    ensures |Utf8.Encode(m.path)| <= 1018
  {
    Utf8.EncodeConcat(PREFIX, m.path);
    assert Ascii(PREFIX);
    AsciiSize(PREFIX);
  }

  lemma AllMembersPortable(lib: Libraries, manifest: seq<Utf8.byte>, files: seq<Member>)
    requires NfcLaw(lib) && (forall m | m in files :: FileFits(lib, m)) && |manifest| <= 0x40_0000
    ensures forall m | m in TreeMembers(manifest, files) :: PortableMember(lib, m)
  {
    var members := TreeMembers(manifest, files);
    forall m | m in members ensures PortableMember(lib, m) {
      var i :| 0 <= i < |members| && members[i] == m;
      if i == 0 {
        ManifestMember(lib, m);
      } else {
        assert files[i - 1] in files;
        PlacedMember(lib, files[i - 1]);
      }
    }
  }

  lemma StoredFrom(lib: Libraries, members: seq<Member>)
    requires |members| <= 1001 && Content(members) <= 0x200_0000 && NamesFit(lib, members)
    requires (forall m | m in members :: PortableMember(lib, m)) && Accepted(lib, Entries(members))
    ensures Stored(lib, members).Some?
  {
    MembersEncoded(lib, members);
  }

  /** The members of a tree whose files fit are stored. */
  lemma MembersStored(lib: Libraries, manifest: seq<Utf8.byte>, files: seq<Member>)
    requires FoldLaw(lib) && AsciiLaw(lib) && NfcLaw(lib)
    requires |files| <= 1000 && (forall m | m in files :: FileFits(lib, m)) && PairwisePortable(lib, Entries(files))
    requires |manifest| <= 0x40_0000 && |manifest| + Content(files) <= 0x200_0000
    ensures Stored(lib, TreeMembers(manifest, files)).Some?
  {
    var members := TreeMembers(manifest, files);
    TreePairwise(lib, manifest, files);
    PairwiseNamesFit(lib, members);
    AllFiles(members);
    AcceptedFilesExactly(lib, Entries(members));
    ContentOfTree(manifest, files);
    AllMembersPortable(lib, manifest, files);
    StoredFrom(lib, members);
  }

  lemma AllFiles(members: seq<Member>)
    ensures forall e | e in Entries(members) :: e.kind.File?
  {
  }

  /** The limits of the archive writer are never reached. */
  lemma MembersEncoded(lib: Libraries, members: seq<Member>)
    requires |members| <= 1001 && Content(members) <= 0x200_0000
    requires (forall m | m in members :: PortableMember(lib, m)) && Accepted(lib, Entries(members))
    ensures Valid(lib, Entries(members), STORED)
  {
    var es := Entries(members);
    forall e | e in es ensures PortableEntry(lib, e, STORED) && e.kind.File? {
      var i :| 0 <= i < |es| && es[i] == e;
      assert PortableMember(lib, members[i]);
    }
    ContentOfEntries(members);
    RecordBound(lib, es, STORED);
  }

  /** Up to 2000 files of 64 MiB in all, an archive of at most 68 MiB, and the pairwise name
      rules. */
  ghost predicate Storable(lib: Libraries, files: seq<Member>) {
    && |files| <= 2000 && (forall m | m in files :: MemberFits(lib, m))
    && PairwisePortable(lib, Entries(files)) && Content(files) <= 0x400_0000
    && (files != [] ==> |Encoding(lib, Entries(files))| <= 0x440_0000)
  }

  lemma StoredIsStorable(lib: Libraries, files: seq<Member>)
    requires FoldLaw(lib) && Stored(lib, files).Some?
    ensures Storable(lib, files)
  {
    var es := Entries(files);
    AllFiles(files);
    AcceptedFilesExactly(lib, es);
    EncodedExactly(lib, es, STORED);
    forall m | m in files ensures MemberFits(lib, m) {
      assert PortableMember(lib, m);
    }
  }

  lemma StorableFits(lib: Libraries, files: seq<Member>)
    requires FoldLaw(lib) && Storable(lib, files)
    ensures MembersFit(lib, files, 2000, 0x400_0000)
  {
    PairwiseNamesFit(lib, files);
    forall m | m in files ensures PortableMember(lib, m) {
      assert MemberFits(lib, m);
    }
  }

  lemma StorableEncodes(lib: Libraries, files: seq<Member>)
    requires FoldLaw(lib) && Storable(lib, files)
    ensures Encoded(lib, Entries(files), STORED).Some?
  {
    var es := Entries(files);
    AllFiles(files);
    AcceptedFilesExactly(lib, es);
    ContentOfEntries(files);
    EntriesPortable(lib, files);
    EncodedExactly(lib, es, STORED);
  }

  /** A list is stored exactly when it is storable. */
  lemma StoredExactly(lib: Libraries, files: seq<Member>)
    requires FoldLaw(lib)
    ensures Stored(lib, files).Some? <==> Storable(lib, files)
  {
    if Stored(lib, files).Some? { StoredIsStorable(lib, files); }
    if Storable(lib, files) {
      StorableFits(lib, files);
      StorableEncodes(lib, files);
    }
  }

  predicate MemberFits(lib: Libraries, m: Member) {
    SafePath(lib, m.path) && (m.mode == 0x1A4 || m.mode == 0x1ED) && |m.bytes| <= 0x40_0000
  }

  lemma EntriesPortable(lib: Libraries, files: seq<Member>)
    requires forall m | m in files :: MemberFits(lib, m)
    ensures forall e | e in Entries(files) ::
              SafePath(lib, e.path) && e.mode <= 511 && |e.bytes| <= STORED.fileBytes && e.kind.File?
  {
    forall e | e in Entries(files) ensures MemberFits(lib, Member(e.path, e.bytes, e.mode)) && e.kind.File? {
      var i :| 0 <= i < |files| && Entries(files)[i] == e;
      assert files[i] in files;
    }
  }

  lemma WrittenNames(lib: Libraries, files: seq<Member>, ordered: seq<Member>, manifest: seq<Utf8.byte>)
    requires FoldLaw(lib) && AsciiLaw(lib) && multiset(ordered) == multiset(files)
    requires Accepted(lib, Entries(TreeMembers(manifest, ordered)))
    ensures PairwisePortable(lib, Entries(files))
  {
    var members := TreeMembers(manifest, ordered);
    AllFiles(members);
    AcceptedFilesExactly(lib, Entries(members));
    TreePairwise(lib, manifest, ordered);
    ShuffledPairwise(lib, ordered, files);
  }

  lemma WrittenFiles(lib: Libraries, files: seq<Member>, ordered: seq<Member>, manifest: seq<Utf8.byte>,
                     payload: seq<Utf8.byte>)
    requires NfcLaw(lib) && DigestLaw(lib) && multiset(ordered) == multiset(files)
    requires forall m | m in files :: PortableMember(lib, m)
    requires Bytes(lib, Document(lib, ordered)) == Some(manifest)
    requires Stored(lib, TreeMembers(manifest, ordered)) == Some(payload)
    ensures forall m | m in files :: FileFits(lib, m)
    ensures manifest == Serialize(ByUnit, Document(lib, ordered))
  {
    SameMembers(ordered, files);
    ManifestExactly(lib, ordered);
    WrittenRoom(lib, ordered, manifest, payload);
    forall m | m in files ensures FileFits(lib, m) {
      assert m in ordered && PortableMember(lib, m);
    }
  }

  lemma WrittenIsWritable(lib: Libraries, files: seq<Member>)
    requires FoldLaw(lib) && AsciiLaw(lib) && NfcLaw(lib) && DigestLaw(lib) && EncodedTree(lib, files).Some?
    ensures Writable(lib, files)
  {
    var payload := EncodedTree(lib, files).value;
    var ordered, manifest := TreeArchive(lib, files, payload);
    var ordered2, manifest2 := TreeParts(lib, files, payload);
    assert ordered2 == ordered && manifest2 == manifest;
    WrittenNames(lib, files, ordered, manifest);
    WrittenFiles(lib, files, ordered, manifest, payload);
    assert |files| <= 1000;
  }

  lemma WrittenRoom(lib: Libraries, ordered: seq<Member>, manifest: seq<Utf8.byte>, payload: seq<Utf8.byte>)
    requires Stored(lib, TreeMembers(manifest, ordered)) == Some(payload)
    ensures forall m | m in ordered :: |Utf8.Encode(m.path)| <= 1018
  {
    var members := TreeMembers(manifest, ordered);
    forall m | m in ordered ensures |Utf8.Encode(m.path)| <= 1018 {
      var i :| 0 <= i < |ordered| && ordered[i] == m;
      assert members[i + 1] in members && members[i + 1] == Placed(m);
      PlacedRoom(lib, m);
    }
  }

  lemma WritableFits(lib: Libraries, files: seq<Member>)
    requires FoldLaw(lib) && Writable(lib, files)
    ensures MembersFit(lib, files, MAX_FILES, MAX_TREE_BYTES)
  {
    PairwiseNamesFit(lib, files);
    forall m | m in files ensures PortableMember(lib, m) {
    }
  }

  lemma WritableManifest(lib: Libraries, files: seq<Member>, ordered: seq<Member>)
    requires NfcLaw(lib) && DigestLaw(lib) && multiset(ordered) == multiset(files)
    requires forall m | m in files :: FileFits(lib, m)
    requires |Serialize(ByUnit, Document(lib, ordered))| <= 0x40_0000
    ensures forall m | m in ordered :: FileFits(lib, m)
    ensures Bytes(lib, Document(lib, ordered)) == Some(Serialize(ByUnit, Document(lib, ordered)))
  {
    SameMembers(ordered, files);
    forall m | m in ordered ensures PortableMember(lib, m) && FileFits(lib, m) {
      assert m in files;
    }
    ManifestExactly(lib, ordered);
  }

  lemma WritableIsWritten(lib: Libraries, files: seq<Member>)
    requires FoldLaw(lib) && AsciiLaw(lib) && NfcLaw(lib) && DigestLaw(lib) && Writable(lib, files)
    ensures EncodedTree(lib, files).Some?
  {
    var ordered := Sort(PathKey(), files);
    WritableFits(lib, files);
    WritableManifest(lib, files, ordered);
    ShuffledPairwise(lib, files, ordered);
    TotalPermutation(ByteCount(), ordered, files);
    MembersStored(lib, Serialize(ByUnit, Document(lib, ordered)), ordered);
    EncodedFrom(lib, files, Serialize(ByUnit, Document(lib, ordered)));
  }

  lemma EncodedFrom(lib: Libraries, files: seq<Member>, manifest: seq<Utf8.byte>)
    requires MembersFit(lib, files, MAX_FILES, MAX_TREE_BYTES)
    requires Bytes(lib, Document(lib, Sort(PathKey(), files))) == Some(manifest)
    requires |manifest| + Content(files) <= MAX_TREE_BYTES
    requires Stored(lib, TreeMembers(manifest, Sort(PathKey(), files))).Some?
    ensures EncodedTree(lib, files).Some?
  {
  }

  /** A tree is written exactly when its files are writable. */
  lemma TreeWrittenExactly(lib: Libraries, files: seq<Member>)
    requires FoldLaw(lib) && AsciiLaw(lib) && NfcLaw(lib) && DigestLaw(lib)
    ensures EncodedTree(lib, files).Some? <==> Writable(lib, files)
  {
    if EncodedTree(lib, files).Some? { WrittenIsWritable(lib, files); }
    if Writable(lib, files) { WritableIsWritten(lib, files); }
  }
}
