/** Component trees: regular files with a canonical manifest, carried in a stored archive. */
module Artifacts {
  import opened Archive
  import opened ArchiveNames
  import opened Canonical
  import opened Libraries
  import opened Ordering
  import opened PortablePaths
  import opened Utf8
  import opened Wrappers
  import ArchiveTransport

  const TREE_FORMAT := "ai-stp-component-tree/1"
  const MAX_FILE_BYTES := 4 * 1024 * 1024
  const MAX_TREE_BYTES := 32 * 1024 * 1024
  const MAX_FILES := 1000
  const MANIFEST := "component.json"
  const PREFIX := "files/"

  /** The limits of writing, and the tighter ones of reading. */
  const STORED := Limits(2000, MAX_FILE_BYTES, 64 * 1024 * 1024, 68 * 1024 * 1024)
  const TREE := Limits(MAX_FILES + 1, MAX_FILE_BYTES, MAX_TREE_BYTES, MAX_TREE_BYTES + 4 * 1024 * 1024)

  datatype Member = Member(path: string, bytes: seq<byte>, mode: nat)

  function PathKey(): Member -> seq<int> {
    (m: Member) => Codes(m.path)
  }

  function ByteCount(): Member -> nat {
    (m: Member) => |m.bytes|
  }

  function Content(files: seq<Member>): nat {
    Total(ByteCount(), files)
  }

  // ---- Validation -----------------------------------------------------------------

  predicate FileMode(mode: nat) {
    mode == 0x1A4 || mode == 0x1ED
  }

  function NameKey(lib: Libraries): Member -> seq<int> {
    (m: Member) => Codes(Fold(lib, m.path))
  }

  function FoldedNames(lib: Libraries, files: seq<Member>): set<string> {
    set m | m in files :: Fold(lib, m.path)
  }

  predicate NoNameAbove(lib: Libraries, path: string, names: set<string>) {
    forall n | 0 <= n < |path| && path[n] == '/' :: Fold(lib, path[..n]) !in names
  }

  predicate PortableMember(lib: Libraries, m: Member) {
    SafePath(lib, m.path) && FileMode(m.mode) && |m.bytes| <= MAX_FILE_BYTES
  }

  ghost predicate MembersFit(lib: Libraries, files: seq<Member>, maxFiles: nat, maxBytes: nat) {
    && |files| <= maxFiles && Content(files) <= maxBytes
    && (forall m | m in files :: PortableMember(lib, m))
    && DistinctKeys(NameKey(lib), files)
    && forall m | m in files :: NoNameAbove(lib, m.path, FoldedNames(lib, files))
  }

  /** The walk over the parents of a path. */
  method ParentsUnnamed(lib: Libraries, path: string, names: set<string>) returns (ok: bool)
    ensures ok == NoNameAbove(lib, path, names)
  {
    var current := path;
    var slash := ArchiveTransport.LastSlash(current);
    while slash.Some?
      invariant current <= path && slash == ArchiveTransport.LastSlash(current)
      invariant forall n | |current| <= n < |path| && path[n] == '/' :: Fold(lib, path[..n]) !in names
      decreases |current|
    {
      var n := slash.value;
      assert current[..n] == path[..n];
      if Fold(lib, current[..n]) in names {
        return false;
      }
      assert forall m | n < m < |current| :: current[m] == current[n + 1..][m - n - 1];
      current := current[..n];
      slash := ArchiveTransport.LastSlash(current);
    }
    assert forall n | 0 <= n < |current| :: path[n] == current[n];
    return true;
  }

  lemma FreshName(lib: Libraries, files: seq<Member>, i: nat)
    requires i < |files| && DistinctKeys(NameKey(lib), files[..i])
    ensures Fold(lib, files[i].path) !in FoldedNames(lib, files[..i]) <==>
            DistinctKeys(NameKey(lib), files[..i + 1])
  {
    var before, now, key := files[..i], files[..i + 1], NameKey(lib);
    assert now == before + [files[i]];
    var name := Fold(lib, files[i].path);
    if name in FoldedNames(lib, before) {
      var a :| 0 <= a < |before| && Fold(lib, before[a].path) == name;
      assert key(now[a]) == key(now[i]);
    } else {
      forall a, b | 0 <= a < b < |now| ensures key(now[a]) != key(now[b]) {
        assert now[a] == before[a] && before[a] in before;
        CodesDiffer(Fold(lib, now[a].path), name);
        if b < i { assert now[b] == before[b]; }
      }
    }
  }

  lemma CodesDiffer(s: string, t: string)
    ensures Codes(s) == Codes(t) <==> s == t
  {
    if Codes(s) == Codes(t) { CodesInjective(s, t); }
  }

  lemma DistinctPrefix(lib: Libraries, files: seq<Member>, i: nat)
    requires i <= |files| && DistinctKeys(NameKey(lib), files)
    ensures DistinctKeys(NameKey(lib), files[..i])
  {
    forall a, b | 0 <= a < b < i ensures NameKey(lib)(files[..i][a]) != NameKey(lib)(files[..i][b]) {
      assert NameKey(lib)(files[a]) != NameKey(lib)(files[b]);
    }
  }

  /** The first loop: every member on its own, the running total, and the set of names. */
  method CheckMembers(lib: Libraries, files: seq<Member>, maxBytes: nat) returns (names: Option<set<string>>)
    ensures names.Some? <==>
            && Content(files) <= maxBytes && (forall m | m in files :: PortableMember(lib, m))
            && DistinctKeys(NameKey(lib), files)
    ensures names.Some? ==> names.value == FoldedNames(lib, files)
  {
    var seen: set<string>, total := {}, 0;
    for i := 0 to |files|
      invariant total + Content(files[i..]) == Content(files) && total <= maxBytes
      invariant forall m | m in files[..i] :: PortableMember(lib, m)
      invariant seen == FoldedNames(lib, files[..i]) && DistinctKeys(NameKey(lib), files[..i])
    {
      var m := files[i];
      assert m in files && files[i..][0] == m && files[i..][1..] == files[i + 1..];
      assert files[..i + 1] == files[..i] + [m];
      total := total + |m.bytes|;
      FreshName(lib, files, i);
      if !PortableMember(lib, m) || total > maxBytes || Fold(lib, m.path) in seen {
        if DistinctKeys(NameKey(lib), files) { DistinctPrefix(lib, files, i + 1); }
        return None;
      }
      seen := seen + {Fold(lib, m.path)};
    }
    assert files[..|files|] == files && Content(files[|files|..]) == 0;
    return Some(seen);
  }

  method Validate(lib: Libraries, files: seq<Member>, maxFiles: nat, maxBytes: nat) returns (ok: bool)
    ensures ok <==> MembersFit(lib, files, maxFiles, maxBytes)
  {
    if |files| > maxFiles {
      return false;
    }
    var names := CheckMembers(lib, files, maxBytes);
    if names.None? {
      return false;
    }
    for i := 0 to |files|
      invariant forall k | 0 <= k < i :: NoNameAbove(lib, files[k].path, names.value)
    {
      ok := ParentsUnnamed(lib, files[i].path, names.value);
      if !ok {
        assert files[i] in files;
        return;
      }
    }
    return true;
  }

  lemma FitPermutes(lib: Libraries, files: seq<Member>, others: seq<Member>, maxFiles: nat, maxBytes: nat)
    requires multiset(files) == multiset(others) && MembersFit(lib, files, maxFiles, maxBytes)
    ensures MembersFit(lib, others, maxFiles, maxBytes)
  {
    assert |files| == |multiset(files)| == |multiset(others)| == |others|;
    SameMembers(files, others);
    TotalPermutation(ByteCount(), files, others);
    DistinctPermutes(NameKey(lib), files, others);
    assert FoldedNames(lib, files) == FoldedNames(lib, others);
  }

  // ---- Writing --------------------------------------------------------------------

  function AsEntry(m: Member): Entry {
    Entry(m.path, m.bytes, m.mode, File)
  }

  function Entries(files: seq<Member>): (es: seq<Entry>)
    ensures |es| == |files| && forall i | 0 <= i < |files| :: es[i] == AsEntry(files[i])
  {
    seq(|files|, i requires 0 <= i < |files| => AsEntry(files[i]))
  }

  ghost function Stored(lib: Libraries, files: seq<Member>): Option<seq<byte>> {
    if MembersFit(lib, files, 2000, 64 * 1024 * 1024) then Encoded(lib, Entries(files), STORED) else None
  }

  method ZipStored(lib: Libraries, files: seq<Member>) returns (r: Option<seq<byte>>)
    ensures r == Stored(lib, files)
  {
    var ok := Validate(lib, files, 2000, 64 * 1024 * 1024);
    if !ok {
      return None;
    }
    r := ArchiveTransport.Encode(lib, Entries(files), STORED);
  }

  /** What the manifest says of a file. */
  function Line(lib: Libraries, m: Member): Value {
    Obj(map[
      "path" := Str(m.path),
      "digest" := Str(lib.digest(m.bytes)),
      "byte_length" := Int(|m.bytes|),
      "mode" := Int(m.mode)])
  }

  function Lines(lib: Libraries, files: seq<Member>): (items: seq<Value>)
    ensures |items| == |files| && forall i | 0 <= i < |files| :: items[i] == Line(lib, files[i])
  {
    seq(|files|, i requires 0 <= i < |files| => Line(lib, files[i]))
  }

  function Document(lib: Libraries, files: seq<Member>): Value {
    Obj(map["format" := Str(TREE_FORMAT), "files" := Arr(Lines(lib, files))])
  }

  function Placed(m: Member): Member {
    m.(path := PREFIX + m.path)
  }

  function TreeMembers(manifest: seq<byte>, files: seq<Member>): (r: seq<Member>)
    ensures |r| == |files| + 1 && r[0] == Member(MANIFEST, manifest, 0x1A4)
    ensures forall i | 0 <= i < |files| :: r[i + 1] == Placed(files[i])
  {
    [Member(MANIFEST, manifest, 0x1A4)] + seq(|files|, i requires 0 <= i < |files| => Placed(files[i]))
  }

  ghost function EncodedTree(lib: Libraries, files: seq<Member>): Option<seq<byte>> {
    if !MembersFit(lib, files, MAX_FILES, MAX_TREE_BYTES) then None
    else
      EncodedInOrder(lib, Sort(PathKey(), files), Content(files))
  }

  /** The archive of files that are in path order, with `content` bytes in all. */
  ghost function EncodedInOrder(lib: Libraries, ordered: seq<Member>, content: nat): Option<seq<byte>> {
    var manifest :- Bytes(lib, Document(lib, ordered));
    if |manifest| + content > MAX_TREE_BYTES then None else Stored(lib, TreeMembers(manifest, ordered))
  }

  method EncodeTree(lib: Libraries, files: seq<Member>) returns (r: Option<seq<byte>>)
    ensures r == EncodedTree(lib, files)
  {
    var ok := Validate(lib, files, MAX_FILES, MAX_TREE_BYTES);
    if !ok {
      return None;
    }
    var ordered := Sort(PathKey(), files);
    var manifest := Bytes(lib, Document(lib, ordered));
    if manifest.None? || |manifest.value| + Content(files) > MAX_TREE_BYTES {
      return None;
    }
    r := ZipStored(lib, TreeMembers(manifest.value, ordered));
  }

  // ---- Reading --------------------------------------------------------------------

  type Index = map<string, (seq<byte>, nat)>

  /** serde_json's indexing: a missing field reads as null. */
  function Field(v: Value, name: string): Value {
    if v.Obj? && name in v.fields then v.fields[name] else Null
  }

  /** One line of the manifest takes its file out of the index. */
  function TakeFile(lib: Libraries, index: Index, line: Value): Option<(Member, Index)> {
    var path := Field(line, "path");
    if !path.Str? || !SafePath(lib, path.text) then None
    else if |line.fields| != 4 then None
    else
      var name := PREFIX + path.text;
      if name !in index then None
      else
        var (bytes, mode) := index[name];
        if || Field(line, "byte_length") != Int(|bytes|) || Field(line, "mode") != Int(mode)
           || Field(line, "digest") != Str(lib.digest(bytes))
        then None
        else Some((Member(path.text, bytes, mode), index - {name}))
  }

  function TakeFiles(lib: Libraries, index: Index, lines: seq<Value>): Option<(seq<Member>, Index)> {
    if lines == [] then Some(([], index))
    else
      var (file, rest) :- TakeFile(lib, index, lines[0]);
      var (files, left) :- TakeFiles(lib, rest, lines[1..]);
      Some(([file] + files, left))
  }

  predicate TreeEntry(e: Entry) {
    e.kind.File? && FileMode(e.mode)
  }

  function Indexed(es: seq<Entry>): Index {
    if es == [] then map[]
    else
      var last := es[|es| - 1];
      Indexed(es[..|es| - 1])[last.path := (last.bytes, last.mode)]
  }

  predicate TreeDocument(v: Value) {
    && v.Obj? && |v.fields| == 2 && Field(v, "format") == Str(TREE_FORMAT)
    && Field(v, "files").Arr? && |Field(v, "files").items| <= MAX_FILES
  }

  function ReadTree(lib: Libraries, es: seq<Entry>): Option<seq<Member>> {
    var index := Indexed(es);
    if !(forall e | e in es :: TreeEntry(e)) || MANIFEST !in index then None
    else
      var (manifest, mode) := index[MANIFEST];
      var document :- Parse(lib, manifest);
      if mode != 0x1A4 || Bytes(lib, document) != Some(manifest) || !TreeDocument(document) then None
      else
        var (files, left) :- TakeFiles(lib, index - {MANIFEST}, Field(document, "files").items);
        if left == map[] then Some(files) else None
  }

  /** Written again, the files give the payload. */
  ghost predicate Rewritten(lib: Libraries, files: seq<Member>, payload: seq<byte>) {
    MembersFit(lib, files, MAX_FILES, MAX_TREE_BYTES) && EncodedTree(lib, files) == Some(payload)
  }

  ghost function DecodedTree(lib: Libraries, payload: seq<byte>): Option<seq<Member>> {
    var es :- Decoded(lib, payload, TREE);
    var files :- ReadTree(lib, es);
    if Rewritten(lib, files, payload) then Some(files) else None
  }

  method IndexMembers(es: seq<Entry>) returns (r: Option<Index>)
    ensures r == if forall e | e in es :: TreeEntry(e) then Some(Indexed(es)) else None
  {
    var index: Index := map[];
    for i := 0 to |es|
      invariant forall e | e in es[..i] :: TreeEntry(e)
      invariant index == Indexed(es[..i])
    {
      var e := es[i];
      if !e.kind.File? || !FileMode(e.mode) {
        assert e in es;
        return None;
      }
      assert es[..i + 1][..i] == es[..i] && es[..i + 1][i] == e;
      index := index[e.path := (e.bytes, e.mode)];
    }
    assert es[..|es|] == es;
    return Some(index);
  }

  /** The files already taken in front of those still to be taken. */
  function After(done: seq<Member>, rest: Option<(seq<Member>, Index)>): (r: Option<(seq<Member>, Index)>)
    ensures done == [] ==> r == rest
    ensures rest.Some? && rest.value.0 == [] ==> r == Some((done, rest.value.1))
  {
    if done == [] || rest.None? then rest
    else
      assert done + [] == done;
      Some((done + rest.value.0, rest.value.1))
  }

  lemma AfterOne(done: seq<Member>, m: Member, rest: Option<(seq<Member>, Index)>)
    ensures After(done + [m], rest)
         == After(done, if rest.None? then None else Some(([m] + rest.value.0, rest.value.1)))
  {
    if rest.Some? {
      assert done + [m] + rest.value.0 == done + ([m] + rest.value.0);
      assert done == [] ==> done + [m] == [m];
    }
  }

  method TakeListed(lib: Libraries, index: Index, lines: seq<Value>) returns (r: Option<(seq<Member>, Index)>)
    ensures r == TakeFiles(lib, index, lines)
  {
    var members, files := index, [];
    for i := 0 to |lines|
      invariant TakeFiles(lib, index, lines) == After(files, TakeFiles(lib, members, lines[i..]))
    {
      assert lines[i..][0] == lines[i] && lines[i..][1..] == lines[i + 1..];
      var next := TakeFile(lib, members, lines[i]);
      if next.None? {
        return None;
      }
      var (file, rest) := next.value;
      AfterOne(files, file, TakeFiles(lib, rest, lines[i + 1..]));
      files := files + [file];
      members := rest;
    }
    return Some((files, members));
  }

  method ReadMembers(lib: Libraries, es: seq<Entry>) returns (r: Option<seq<Member>>)
    ensures r == ReadTree(lib, es)
  {
    var members := IndexMembers(es);
    if members.None? || MANIFEST !in members.value {
      return None;
    }
    var (manifest, mode) := members.value[MANIFEST];
    var document := Parse(lib, manifest);
    if document.None? {
      return None;
    }
    if mode != 0x1A4 || Bytes(lib, document.value) != Some(manifest) || !TreeDocument(document.value) {
      return None;
    }
    var taken := TakeListed(lib, members.value - {MANIFEST}, Field(document.value, "files").items);
    return if taken.None? || taken.value.1 != map[] then None else Some(taken.value.0);
  }

  method DecodeChecked(lib: Libraries, payload: seq<byte>) returns (r: Option<seq<Member>>)
    ensures r == DecodedTree(lib, payload)
  {
    var es := ArchiveTransport.DecodeChecked(lib, payload, TREE);
    if es.None? {
      return None;
    }
    r := ReadMembers(lib, es.value);
    if r.None? {
      return;
    }
    var ok := Validate(lib, r.value, MAX_FILES, MAX_TREE_BYTES);
    if !ok {
      return None;
    }
    var again := EncodeTree(lib, r.value);
    return if again == Some(payload) then r else None;
  }
}
