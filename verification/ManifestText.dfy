/** The manifest of a component tree, character by character. */
module ManifestText {
  import opened Archive
  import opened ArchiveNames
  import opened Artifacts
  import opened Canonical
  import opened CanonicalForm
  import opened JsonText
  import opened Libraries
  import opened Ordering
  import opened Wrappers
  import Decimal
  import TreeRoundTrip
  import TreeSuccess
  import Utf8

  // ---- The text -------------------------------------------------------------------

  function Named(key: string): string {
    "\"" + key + "\":"
  }

  function InQuotes(text: string): string {
    "\"" + text + "\""
  }

  function LineText(lib: Libraries, m: Artifacts.Member): string {
    "{" + Named("byte_length") + Decimal.Print(|m.bytes|)
    + ("," + Named("digest") + Quote(lib.digest(m.bytes))
       + ("," + Named("mode") + Decimal.Print(m.mode)
          + ("," + Named("path") + Quote(m.path) + "}")))
  }

  function LinesText(lib: Libraries, files: seq<Artifacts.Member>, first: bool): string {
    if files == [] then "]"
    else (if first then "" else ",") + LineText(lib, files[0]) + LinesText(lib, files[1..], false)
  }

  function ManifestText(lib: Libraries, files: seq<Artifacts.Member>): string {
    "{" + Named("files") + ("[" + LinesText(lib, files, true))
    + ("," + Named("format") + InQuotes("ai-stp-component-tree/1") + "}")
  }

  // ---- Keys -----------------------------------------------------------------------

  predicate Plain(c: char) {
    0x20 <= c as int < 0x80 && c != '"' && c != '\\'
  }

  predicate PlainKey(s: string) {
    s != "" && forall c | c in s :: Plain(c)
  }

  lemma {:induction false} PlainEscape(s: string)
    requires forall i | 0 <= i < |s| :: Plain(s[i])
    ensures Escape(s) == s
  {
    if s != "" {
      assert forall i | 0 <= i < |s[1..]| :: s[1..][i] == s[i + 1];
      PlainEscape(s[1..]);
      assert s == [s[0]] + s[1..];
    }
  }

  /** The keys start with different ASCII letters, in their order. */
  predicate Rising(r: seq<string>) {
    && (forall i | 0 <= i < |r| :: r[i] != "" && r[i][0] as int < 0x80)
    && forall i, j | 0 <= i < j < |r| :: r[i][0] < r[j][0]
  }

  lemma ByFirst(r: seq<string>)
    requires Rising(r)
    ensures Increasing(KeyOf(ByUnit), r)
  {
    forall i, j | 0 <= i < j < |r| ensures Less(KeyOf(ByUnit)(r[i]), KeyOf(ByUnit)(r[j])) {
      SamePlane(r[i][0], r[i][1..], r[j][0], r[j][1..]);
      assert r[i] == [r[i][0]] + r[i][1..] && r[j] == [r[j][0]] + r[j][1..];
    }
  }

  lemma OrderIs(ks: set<string>, r: seq<string>)
    requires (forall k :: k in ks <==> k in r)
    requires Increasing(KeyOf(ByUnit), r)
    ensures Ordered(ByUnit, ks) == r
  {
    OrderedIncreasing(ByUnit, ks);
    IncreasingUnique(KeyOf(ByUnit), Ordered(ByUnit, ks), r);
  }

  lemma Members(v: Value, ks: seq<string>) returns (ms: seq<JsonText.Member>)
    requires v.Obj? && Ordered(ByUnit, v.fields.Keys) == ks && forall k | k in ks :: k in v.fields
    ensures RawOf(ByUnit, v) == RObject(ms) && |ms| == |ks|
    ensures forall i | 0 <= i < |ks| ::
              ks[i] in v.fields && ms[i] == JsonText.Member(ks[i], RawOf(ByUnit, v.fields[ks[i]]))
  {
    ms := RawMembers(ByUnit, v, ks);
    forall i | 0 <= i < |ks|
      ensures ks[i] in v.fields && ms[i] == JsonText.Member(ks[i], RawOf(ByUnit, v.fields[ks[i]]))
    {
      RawMembersPrefix(ByUnit, v, ks, i);
    }
  }

  /** The rest of an object with plain keys. */
  function Pairs(ks: seq<string>, values: seq<string>, first: bool): string
    requires |ks| == |values|
  {
    if ks == [] then "}"
    else (if first then "" else ",") + Named(ks[0]) + values[0] + Pairs(ks[1..], values[1..], false)
  }

  lemma {:induction false} MembersText(ms: seq<JsonText.Member>, ks: seq<string>, values: seq<string>, first: bool)
    requires |ms| == |ks| == |values| && forall i | 0 <= i < |ks| :: PlainKey(ks[i])
    requires forall i | 0 <= i < |ms| :: ms[i].key == ks[i] && JsonText.Print(ms[i].value) == values[i]
    ensures PrintMembers(ms, first) == Pairs(ks, values, first)
  {
    if ms != [] {
      MembersText(ms[1..], ks[1..], values[1..], false);
      PlainEscape(ks[0]);
      assert Quote(ks[0]) + ":" == Named(ks[0]);
      Regroup(if first then "" else ",", Quote(ks[0]), values[0], Pairs(ks[1..], values[1..], false));
    }
  }

  lemma Regroup(comma: string, key: string, value: string, more: string)
    ensures comma + key + ":" + value + more == comma + (key + ":") + value + more
  {
  }

  /** An object's keys in their order, and what is printed for their values. */
  ghost predicate Fields(v: Value, ks: seq<string>, values: seq<string>) {
    && v.Obj? && |ks| == |values| && (forall k :: k in v.fields <==> k in ks)
    && (forall i | 0 <= i < |ks| :: PlainKey(ks[i]))
    && forall i | 0 <= i < |ks| :: ks[i] in v.fields && JsonText.Print(RawOf(ByUnit, v.fields[ks[i]])) == values[i]
  }

  lemma ObjectText(v: Value, ks: seq<string>, values: seq<string>)
    requires Fields(v, ks, values) && Ordered(ByUnit, v.fields.Keys) == ks
    ensures JsonText.Print(RawOf(ByUnit, v)) == "{" + Pairs(ks, values, true)
  {
    var ms := Members(v, ks);
    MembersText(ms, ks, values, true);
    assert JsonText.Print(RObject(ms)) == "{" + PrintMembers(ms, true);
  }

  // ---- One line -------------------------------------------------------------------

  lemma FourPairs(a: string, b: string, c: string, d: string, w: string, x: string, y: string, z: string)
    ensures Pairs([a, b, c, d], [w, x, y, z], true)
         == Named(a) + w + ("," + Named(b) + x + ("," + Named(c) + y + ("," + Named(d) + z + "}")))
  {
    assert Pairs([], [], false) == "}";
    assert Pairs([d], [z], false) == "," + Named(d) + z + "}";
    assert [c, d][1..] == [d] && [y, z][1..] == [z];
    assert Pairs([c, d], [y, z], false) == "," + Named(c) + y + Pairs([d], [z], false);
    assert [b, c, d][1..] == [c, d] && [x, y, z][1..] == [y, z];
    assert Pairs([b, c, d], [x, y, z], false) == "," + Named(b) + x + Pairs([c, d], [y, z], false);
    assert [a, b, c, d][1..] == [b, c, d] && [w, x, y, z][1..] == [x, y, z];
    assert "" + Named(a) == Named(a);
    assert Pairs([a, b, c, d], [w, x, y, z], true) == "" + Named(a) + w + Pairs([b, c, d], [x, y, z], false);
  }

  lemma TwoPairs(a: string, b: string, w: string, x: string)
    ensures Pairs([a, b], [w, x], true) == Named(a) + w + ("," + Named(b) + x + "}")
  {
    assert Pairs([], [], false) == "}";
    assert Pairs([b], [x], false) == "," + Named(b) + x + "}";
    assert [a, b][1..] == [b] && [w, x][1..] == [x];
    assert "" + Named(a) == Named(a);
    assert Pairs([a, b], [w, x], true) == "" + Named(a) + w + Pairs([b], [x], false);
  }

  lemma RisingFour(a: string, b: string, c: string, d: string)
    requires PlainKey(a) && PlainKey(b) && PlainKey(c) && PlainKey(d) && a[0] < b[0] < c[0] < d[0]
    ensures Rising([a, b, c, d])
  {
    assert a[0] in a && b[0] in b && c[0] in c && d[0] in d;
  }

  lemma FourOrdered(all: set<string>, a: string, b: string, c: string, d: string)
    requires PlainKey(a) && PlainKey(b) && PlainKey(c) && PlainKey(d) && a[0] < b[0] < c[0] < d[0]
    requires all == {a, b, c, d}
    ensures Ordered(ByUnit, all) == [a, b, c, d]
  {
    RisingFour(a, b, c, d);
    ByFirst([a, b, c, d]);
    OrderIs(all, [a, b, c, d]);
  }

  lemma FourFields(v: Value, a: string, b: string, c: string, d: string)
    requires v.Obj? && v.fields.Keys == {a, b, c, d}
    requires PlainKey(a) && PlainKey(b) && PlainKey(c) && PlainKey(d) && a[0] < b[0] < c[0] < d[0]
    ensures a in v.fields && b in v.fields && c in v.fields && d in v.fields
    ensures JsonText.Print(RawOf(ByUnit, v))
         == "{" + (Named(a) + JsonText.Print(RawOf(ByUnit, v.fields[a]))
                   + ("," + Named(b) + JsonText.Print(RawOf(ByUnit, v.fields[b]))
                      + ("," + Named(c) + JsonText.Print(RawOf(ByUnit, v.fields[c]))
                         + ("," + Named(d) + JsonText.Print(RawOf(ByUnit, v.fields[d])) + "}"))))
  {
    assert a in v.fields.Keys && b in v.fields.Keys && c in v.fields.Keys && d in v.fields.Keys;
    var w, x := JsonText.Print(RawOf(ByUnit, v.fields[a])), JsonText.Print(RawOf(ByUnit, v.fields[b]));
    var y, z := JsonText.Print(RawOf(ByUnit, v.fields[c])), JsonText.Print(RawOf(ByUnit, v.fields[d]));
    FourOrdered(v.fields.Keys, a, b, c, d);
    FourListed(v, a, b, c, d, w, x, y, z);
    ObjectText(v, [a, b, c, d], [w, x, y, z]);
    FourPairs(a, b, c, d, w, x, y, z);
  }

  lemma FourListed(v: Value, a: string, b: string, c: string, d: string,
                   w: string, x: string, y: string, z: string)
    requires v.Obj? && v.fields.Keys == {a, b, c, d} && PlainKey(a) && PlainKey(b) && PlainKey(c) && PlainKey(d)
    requires a in v.fields && b in v.fields && c in v.fields && d in v.fields
    requires w == JsonText.Print(RawOf(ByUnit, v.fields[a])) && x == JsonText.Print(RawOf(ByUnit, v.fields[b]))
    requires y == JsonText.Print(RawOf(ByUnit, v.fields[c])) && z == JsonText.Print(RawOf(ByUnit, v.fields[d]))
    ensures Fields(v, [a, b, c, d], [w, x, y, z])
  {
    assert forall k :: k in v.fields.Keys <==> k in [a, b, c, d];
  }

  lemma TwoFields(v: Value, a: string, b: string)
    requires v.Obj? && v.fields.Keys == {a, b} && PlainKey(a) && PlainKey(b)
    requires Less(KeyOf(ByUnit)(a), KeyOf(ByUnit)(b))
    ensures a in v.fields && b in v.fields
    ensures JsonText.Print(RawOf(ByUnit, v))
         == "{" + (Named(a) + JsonText.Print(RawOf(ByUnit, v.fields[a]))
                   + ("," + Named(b) + JsonText.Print(RawOf(ByUnit, v.fields[b])) + "}"))
  {
    assert a in v.fields.Keys && b in v.fields.Keys;
    var w, x := JsonText.Print(RawOf(ByUnit, v.fields[a])), JsonText.Print(RawOf(ByUnit, v.fields[b]));
    var ks, values := [a, b], [w, x];
    assert forall k :: k in v.fields.Keys <==> k in ks;
    OrderIs(v.fields.Keys, ks);
    ObjectText(v, ks, values);
    TwoPairs(a, b, w, x);
  }

  lemma LineKeys(lib: Libraries, m: Artifacts.Member, a: string, b: string, c: string, d: string)
    requires a == "byte_length" && b == "digest" && c == "mode" && d == "path"
    ensures var v := Line(lib, m);
            && v.fields.Keys == {a, b, c, d}
            && v.fields[a] == Int(|m.bytes|) && v.fields[b] == Str(lib.digest(m.bytes))
            && v.fields[c] == Int(m.mode) && v.fields[d] == Str(m.path)
    ensures PlainKey(a) && PlainKey(b) && PlainKey(c) && PlainKey(d) && a[0] < b[0] < c[0] < d[0]
  {
  }

  lemma LinePrinted(lib: Libraries, m: Artifacts.Member)
    ensures JsonText.Print(RawOf(ByUnit, Line(lib, m))) == LineText(lib, m)
  {
    var a, b, c, d := "byte_length", "digest", "mode", "path";
    LineKeys(lib, m, a, b, c, d);
    FourFields(Line(lib, m), a, b, c, d);
    Opening(Named(a), Decimal.Print(|m.bytes|),
            "," + Named(b) + Quote(lib.digest(m.bytes))
            + ("," + Named(c) + Decimal.Print(m.mode) + ("," + Named(d) + Quote(m.path) + "}")));
  }

  lemma Opening(key: string, value: string, more: string)
    ensures "{" + (key + value + more) == "{" + key + value + more
  {
  }

  // ---- The whole manifest ---------------------------------------------------------

  lemma {:induction false} LinesPrinted(lib: Libraries, files: seq<Artifacts.Member>, first: bool)
    ensures PrintItems(RawItems(ByUnit, Lines(lib, files)), first) == LinesText(lib, files, first)
  {
    if files != [] {
      var items, rest := Lines(lib, files), Lines(lib, files[1..]);
      assert items[0] == Line(lib, files[0]) && items[1..] == rest;
      LinePrinted(lib, files[0]);
      LinesPrinted(lib, files[1..], false);
      ItemsOneMore(items, first);
    }
  }

  lemma ItemsOneMore(items: seq<Value>, first: bool)
    requires items != []
    ensures PrintItems(RawItems(ByUnit, items), first)
         == (if first then "" else ",") + JsonText.Print(RawOf(ByUnit, items[0]))
          + PrintItems(RawItems(ByUnit, items[1..]), false)
  {
    assert RawItems(ByUnit, items)[1..] == RawItems(ByUnit, items[1..]);
  }

  lemma DocumentKeys(lib: Libraries, files: seq<Artifacts.Member>, a: string, b: string)
    requires a == "files" && b == "format"
    ensures var v := Document(lib, files);
            v.fields.Keys == {a, b} && v.fields[a] == Arr(Lines(lib, files))
            && v.fields[b] == Str("ai-stp-component-tree/1")
    ensures PlainKey(a) && PlainKey(b)
  {
  }

  lemma KeysInOrder(a: string, b: string)
    requires a == "files" && b == "format"
    ensures Less(KeyOf(ByUnit)(a), KeyOf(ByUnit)(b))
  {
    var s, t := ['i'] + "les", ['o'] + "rmat";
    SamePlane('i', "les", 'o', "rmat");
    CommonStart("f", s, t);
    assert "f" + s == a && "f" + t == b;
  }

  lemma FormatPrinted(format: string)
    requires format == "ai-stp-component-tree/1"
    ensures Quote(format) == InQuotes(format)
  {
    assert forall c | c in format :: Plain(c);
    PlainEscape(format);
  }

  lemma ListPrinted(v: Value, a: string, b: string, items: seq<Value>, lines: string, format: string)
    requires v.Obj? && v.fields.Keys == {a, b} && PlainKey(a) && PlainKey(b)
    requires Less(KeyOf(ByUnit)(a), KeyOf(ByUnit)(b))
    requires a in v.fields && v.fields[a] == Arr(items) && b in v.fields && v.fields[b] == Str(format)
    requires PrintItems(RawItems(ByUnit, items), true) == lines && Quote(format) == InQuotes(format)
    ensures JsonText.Print(RawOf(ByUnit, v))
         == "{" + Named(a) + ("[" + lines) + ("," + Named(b) + InQuotes(format) + "}")
  {
    TwoFields(v, a, b);
    ArrayPrinted(items);
    Opening(Named(a), "[" + lines, "," + Named(b) + InQuotes(format) + "}");
  }

  lemma DocumentPrinted(lib: Libraries, files: seq<Artifacts.Member>)
    ensures JsonText.Print(RawOf(ByUnit, Document(lib, files))) == ManifestText(lib, files)
  {
    var a, b, format := "files", "format", "ai-stp-component-tree/1";
    DocumentKeys(lib, files, a, b);
    KeysInOrder(a, b);
    LinesPrinted(lib, files, true);
    FormatPrinted(format);
    ListPrinted(Document(lib, files), a, b, Lines(lib, files), LinesText(lib, files, true), format);
  }

  lemma ArrayPrinted(items: seq<Value>)
    ensures JsonText.Print(RawOf(ByUnit, Arr(items))) == "[" + PrintItems(RawItems(ByUnit, items), true)
  {
  }

  /** The entries of the archive: the manifest, and the files below their directory. */
  function TreeEntries(lib: Libraries, files: seq<Artifacts.Member>): seq<Entry> {
    [Entry("component.json", Utf8.Encode(ManifestText(lib, files)), 0x1A4, File)]
    + seq(|files|, i requires 0 <= i < |files| =>
        Entry("files/" + files[i].path, files[i].bytes, files[i].mode, File))
  }

  lemma ManifestIs(lib: Libraries, files: seq<Artifacts.Member>, manifest: seq<Utf8.byte>)
    requires NfcLaw(lib) && DigestLaw(lib) && (forall m | m in files :: PortableMember(lib, m))
    requires Bytes(lib, Document(lib, files)) == Some(manifest)
    ensures manifest == Utf8.Encode(ManifestText(lib, files))
  {
    TreeSuccess.ManifestExactly(lib, files);
    DocumentPrinted(lib, files);
  }

  lemma EntriesAre(lib: Libraries, files: seq<Artifacts.Member>, manifest: seq<Utf8.byte>)
    requires manifest == Utf8.Encode(ManifestText(lib, files))
    ensures Entries(TreeMembers(manifest, files)) == TreeEntries(lib, files)
  {
    var members := TreeMembers(manifest, files);
    var es, ts := Entries(members), TreeEntries(lib, files);
    forall i | 0 <= i < |es| ensures es[i] == ts[i] {
      if i > 0 { assert members[i] == Placed(files[i - 1]); }
    }
  }

  /** The archive of a written tree holds its manifest, character by character as above, and
      then its files in the order of their paths. */
  lemma TreeContents(lib: Libraries, files: seq<Artifacts.Member>, payload: seq<Utf8.byte>)
    requires NfcLaw(lib) && DigestLaw(lib) && EncodedTree(lib, files) == Some(payload)
    requires TreeRoundTrip.InPathOrder(files)
    ensures Decoded(lib, payload, TREE) == Some(TreeEntries(lib, files))
  {
    TreeRoundTrip.PathOrder(files);
    SortFixed(PathKey(), files);
    var ordered, manifest := TreeRoundTrip.TreeArchive(lib, files, payload);
    ManifestIs(lib, files, manifest);
    EntriesAre(lib, files, manifest);
    DecodedExactly(lib, payload, TREE, TreeEntries(lib, files));
  }
}
