/** The archive operations as the program runs them: running totals, an ordered map of
    folded names, and buffers that grow record by record. */
module ArchiveTransport {
  import opened Archive
  import opened ArchiveNames
  import opened Libraries
  import opened Ordering
  import opened PortablePaths
  import opened Utf8
  import opened Wrappers
  import opened ZipRecords

  // ---- Validation -----------------------------------------------------------------

  /** The inner loop over the parts of two neighbours. */
  method SpelledAlike(lib: Libraries, left: seq<string>, right: seq<string>) returns (ok: bool)
    ensures ok == ScanPair(lib, left, right)
  {
    var k := 0;
    while k < |left| && k < |right|
      invariant k <= |left| && k <= |right|
      invariant ScanPair(lib, left, right) == ScanPair(lib, left[k..], right[k..])
    {
      if Fold(lib, left[k]) != Fold(lib, right[k]) {
        return true;
      }
      if left[k] != right[k] {
        return false;
      }
      k := k + 1;
    }
    return true;
  }

  /** Neighbours in folded order, each compared with the one before it. */
  method ScanNeighbours(lib: Libraries, names: seq<Entry>) returns (ok: bool)
    ensures ok <==> NeighboursAlike(lib, names)
  {
    var previous: Option<Entry> := None;
    for k := 0 to |names|
      invariant previous == if k == 0 then None else Some(names[k - 1])
      invariant forall i: nat | i + 1 < k :: ScanAt(lib, names, i)
    {
      if previous.Some? {
        var alike := SpelledAlike(lib, Parts(previous.value), Parts(names[k]));
        assert alike == ScanAt(lib, names, k - 1);
        if !alike {
          return false;
        }
      }
      previous := Some(names[k]);
    }
    return true;
  }

  /** `rsplit_once('/')`: where the last separator is. */
  function LastSlash(s: string): (r: Option<nat>)
    ensures r.None? ==> '/' !in s
    ensures r.Some? ==> r.value < |s| && s[r.value] == '/' && '/' !in s[r.value + 1..]
  {
    if s == "" then None
    else if s[|s| - 1] == '/' then Some(|s| - 1)
    else
      assert s == s[..|s| - 1] + [s[|s| - 1]];
      LastSlash(s[..|s| - 1])
  }

  predicate FileNamed(lib: Libraries, names: seq<Entry>, path: string) {
    exists f | f in names :: f.kind.File? && Fold(lib, f.path) == Fold(lib, path)
  }

  /** Walk up from a path; no parent may be a file. */
  method ParentsAreFree(lib: Libraries, path: string, names: seq<Entry>) returns (ok: bool)
    ensures ok <==> NoFileAbove(lib, path, names)
  {
    var current := path;
    var slash := LastSlash(current);
    while slash.Some?
      invariant current <= path && slash == LastSlash(current)
      invariant forall n, f | |current| <= n < |path| && path[n] == '/' && f in names && f.kind.File? ::
                  Fold(lib, path[..n]) != Fold(lib, f.path)
      decreases |current|
    {
      var n := slash.value;
      assert current[..n] == path[..n];
      if FileNamed(lib, names, current[..n]) {
        return false;
      }
      assert forall m | n < m < |current| :: current[m] == current[n + 1..][m - n - 1];
      current := current[..n];
      slash := LastSlash(current);
    }
    assert forall n | 0 <= n < |current| :: path[n] == current[n];
    return true;
  }

  /** The totals with one more entry, when that entry and the totals are within the rules. */
  function Counted(lib: Libraries, e: Entry, limits: Limits, content: nat, archive: nat): Option<(nat, nat)> {
    var (c, a) := (content + |e.bytes|, archive + 76 + 2 * NameSize(e) + |e.bytes|);
    if PortableEntry(lib, e, limits) && c <= limits.contentBytes && a <= limits.archiveBytes && a < U32_MAX
    then Some((c, a)) else None
  }

  /** One entry on its own, and the totals with it; an overflow is refused. */
  method CountEntry(lib: Libraries, e: Entry, limits: Limits, content: nat, archive: nat)
    returns (totals: Option<(nat, nat)>)
    ensures totals == Counted(lib, e, limits, content, archive)
  {
    var c := content + |e.bytes|;
    var a := archive + 76 + 2 * NameSize(e) + |e.bytes|;
    if c > USIZE_MAX || a > USIZE_MAX {
      return None;
    }
    if !PortableEntry(lib, e, limits) || c > limits.contentBytes || a > limits.archiveBytes || a >= U32_MAX {
      return None;
    }
    return Some((c, a));
  }

  /** The map of the first names, all of them different. */
  ghost predicate Indexes(lib: Libraries, entries: seq<Entry>, i: nat, index: seq<Entry>)
    requires i <= |entries|
  {
    index == Sort(Key(lib), entries[..i]) && DistinctKeys(Key(lib), entries[..i])
  }

  lemma IndexBegins(lib: Libraries, entries: seq<Entry>)
    ensures Indexes(lib, entries, 0, [])
  {
  }

  lemma IndexEnds(lib: Libraries, entries: seq<Entry>, index: seq<Entry>)
    requires Indexes(lib, entries, |entries|, index)
    ensures index == Sort(Key(lib), entries) && DistinctKeys(Key(lib), entries)
  {
    assert entries[..|entries|] == entries;
  }

  /** Insertion into the map of folded names; a name that is already there is refused. */
  method InsertName(lib: Libraries, entries: seq<Entry>, i: nat, index: seq<Entry>) returns (r: Option<seq<Entry>>)
    requires i < |entries| && Indexes(lib, entries, i, index)
    ensures r.None? ==> !DistinctKeys(Key(lib), entries)
    ensures r.Some? ==> Indexes(lib, entries, i + 1, r.value)
  {
    var e := entries[i];
    if exists n | n in index :: Key(lib)(n) == Key(lib)(e) {
      ghost var n :| n in index && Key(lib)(n) == Key(lib)(e);
      SameMembers(index, entries[..i]);
      Repeated(lib, entries, i, n);
      return None;
    }
    Indexed(Key(lib), entries, i, index);
    return Some(Insert(Key(lib), e, index));
  }

  /** The first i entries are within the rules, and the totals, with what is still to come,
      are the sizes of the whole list. */
  ghost predicate FitSoFar(lib: Libraries, entries: seq<Entry>, i: nat, limits: Limits, content: nat, archive: nat)
    requires i <= |entries|
  {
    && content + ContentSize(entries[i..]) == ContentSize(entries)
    && archive + RecordSizes(entries[i..]) == ArchiveSize(entries)
    && (forall k | 0 <= k < i :: PortableEntry(lib, entries[k], limits))
    && (i > 0 ==> content <= limits.contentBytes && archive <= limits.archiveBytes && archive < U32_MAX)
  }

  lemma FitBegins(lib: Libraries, entries: seq<Entry>, limits: Limits)
    ensures FitSoFar(lib, entries, 0, limits, 0, 22)
  {
    assert entries[0..] == entries;
  }

  lemma FitNext(lib: Libraries, entries: seq<Entry>, i: nat, limits: Limits, content: nat, archive: nat,
                totals: Option<(nat, nat)>)
    requires i < |entries| && FitSoFar(lib, entries, i, limits, content, archive)
    requires totals == Counted(lib, entries[i], limits, content, archive)
    ensures totals.Some? ==> FitSoFar(lib, entries, i + 1, limits, totals.value.0, totals.value.1)
    ensures totals.None? ==> !EntriesFit(lib, entries, limits)
  {
    assert entries[i] in entries;
    SizesFrom(entries, i);
  }

  lemma FitEnds(lib: Libraries, entries: seq<Entry>, limits: Limits, content: nat, archive: nat)
    requires |entries| <= limits.entries && |entries| < U16_MAX
    requires FitSoFar(lib, entries, |entries|, limits, content, archive)
    ensures EntriesFit(lib, entries, limits)
  {
  }

  /** The first loop: every entry on its own, the running totals, and the map of names. */
  method CheckEntries(lib: Libraries, entries: seq<Entry>, limits: Limits) returns (names: Option<seq<Entry>>)
    ensures names.Some? <==> EntriesFit(lib, entries, limits) && DistinctKeys(Key(lib), entries)
    ensures names.Some? ==> names.value == Sort(Key(lib), entries)
  {
    if |entries| > limits.entries || |entries| >= U16_MAX {
      return None;
    }
    var index: seq<Entry> := [];
    var content: nat, archive: nat := 0, 22;
    IndexBegins(lib, entries);
    FitBegins(lib, entries, limits);
    for i := 0 to |entries|
      invariant FitSoFar(lib, entries, i, limits, content, archive)
      invariant Indexes(lib, entries, i, index)
    {
      var totals := CountEntry(lib, entries[i], limits, content, archive);
      FitNext(lib, entries, i, limits, content, archive, totals);
      if totals.None? {
        return None;
      }
      content, archive := totals.value.0, totals.value.1;
      var more := InsertName(lib, entries, i, index);
      if more.None? {
        return None;
      }
      index := more.value;
    }
    FitEnds(lib, entries, limits, content, archive);
    IndexEnds(lib, entries, index);
    return Some(index);
  }

  lemma SizesFrom(entries: seq<Entry>, i: nat)
    requires i < |entries|
    ensures ContentSize(entries[i..]) == |entries[i].bytes| + ContentSize(entries[i + 1..])
    ensures RecordSizes(entries[i..])
         == 76 + 2 * NameSize(entries[i]) + |entries[i].bytes| + RecordSizes(entries[i + 1..])
  {
    assert entries[i..][0] == entries[i] && entries[i..][1..] == entries[i + 1..];
  }

  method Validate(lib: Libraries, entries: seq<Entry>, limits: Limits) returns (ok: bool)
    ensures ok <==> Valid(lib, entries, limits)
  {
    var names := CheckEntries(lib, entries, limits);
    if names.None? {
      return false;
    }
    SameMembers(names.value, entries);
    ok := ScanNeighbours(lib, names.value);
    if !ok {
      return;
    }
    ok := AllParentsAreFree(lib, entries, names.value);
  }

  method AllParentsAreFree(lib: Libraries, entries: seq<Entry>, names: seq<Entry>) returns (ok: bool)
    requires forall x :: x in names <==> x in entries
    ensures ok <==> forall e | e in entries :: NoFileAbove(lib, e.path, entries)
  {
    for i := 0 to |entries|
      invariant forall k | 0 <= k < i :: NoFileAbove(lib, entries[k].path, entries)
    {
      ok := ParentsAreFree(lib, entries[i].path, names);
      SameFiles(lib, entries[i].path, names, entries);
      if !ok {
        assert entries[i] in entries;
        return;
      }
    }
    ok := true;
  }

  lemma SameFiles(lib: Libraries, path: string, a: seq<Entry>, b: seq<Entry>)
    requires forall x :: x in a <==> x in b
    ensures NoFileAbove(lib, path, a) == NoFileAbove(lib, path, b)
  {
  }

  lemma Indexed(key: Entry -> seq<int>, entries: seq<Entry>, i: nat, index: seq<Entry>)
    requires i < |entries| && DistinctKeys(key, entries[..i]) && index == Sort(key, entries[..i])
    requires forall n | n in index :: key(n) != key(entries[i])
    ensures DistinctKeys(key, entries[..i + 1])
    ensures Insert(key, entries[i], index) == Sort(key, entries[..i + 1])
  {
    InsertNext(key, entries[..i], index, entries[i]);
    assert entries[..i + 1] == entries[..i] + [entries[i]];
  }

  lemma Repeated(lib: Libraries, entries: seq<Entry>, i: nat, n: Entry)
    requires i < |entries| && n in entries[..i] && Key(lib)(n) == Key(lib)(entries[i])
    ensures !DistinctKeys(Key(lib), entries)
  {
    var j :| 0 <= j < i && entries[..i][j] == n;
    assert entries[j] == n;
  }

  // ---- Encoding -------------------------------------------------------------------

  method WriteRecords(f: Format, entries: seq<Entry>) returns (output: seq<byte>, central: seq<byte>)
    ensures output == Locals(f, entries) && central == Directories(f, entries, 0)
  {
    output, central := [], [];
    for i := 0 to |entries|
      invariant output + Locals(f, entries[i..]) == Locals(f, entries)
      invariant central + Directories(f, entries[i..], |output|) == Directories(f, entries, 0)
    {
      var e, offset := entries[i], |output|;
      assert entries[i..][0] == e && entries[i..][1..] == entries[i + 1..];
      output := output + f.local(e);
      central := central + f.central(e, offset);
    }
    assert entries[|entries|..] == [];
  }

  method Encode(lib: Libraries, entries: seq<Entry>, limits: Limits) returns (r: Option<seq<byte>>)
    ensures r == Encoded(lib, entries, limits)
  {
    var ok := Validate(lib, entries, limits);
    if !ok {
      return None;
    }
    var output, central := WriteRecords(Zip(lib), entries);
    return Some(output + central + EndRecord(|entries|, |central|, |output|));
  }

  // ---- Decoding -------------------------------------------------------------------

  lemma {:induction false} ContentOfConcat(a: seq<Entry>, b: seq<Entry>)
    ensures ContentSize(a + b) == ContentSize(a) + ContentSize(b)
  {
    if a == [] {
      assert a + b == b;
    } else {
      ContentOfConcat(a[1..], b);
      assert (a + b)[1..] == a[1..] + b;
    }
  }

  /** Put what was read in front of what is still to be read. */
  function Prepend<T>(done: seq<T>, rest: Option<seq<T>>): (r: Option<seq<T>>)
    ensures done == [] ==> r == rest
    ensures rest == Some([]) ==> r == Some(done)
  {
    if done == [] || rest.None? then rest
    else
      assert done + [] == done;
      Some(done + rest.value)
  }

  method ListDirectory(f: Format, payload: seq<byte>, start: nat, count: nat)
    returns (r: Option<seq<Listed>>)
    ensures r == ReadDirectory(f, payload, start, count)
  {
    var at, directory := start, [];
    for i := 0 to count
      invariant ReadDirectory(f, payload, start, count)
             == Prepend(directory, ReadDirectory(f, payload, at, count - i))
    {
      var next := f.listed(payload, at);
      if next.None? {
        return None;
      }
      var (c, after) := next.value;
      PrependOne(directory, c, ReadDirectory(f, payload, after, count - i - 1));
      directory := directory + [c];
      at := after;
    }
    return Some(directory);
  }

  lemma PrependOne<T>(done: seq<T>, x: T, rest: Option<seq<T>>)
    ensures Prepend(done + [x], rest)
         == Prepend(done, if rest.None? then None else Some([x] + rest.value))
  {
    if rest.Some? {
      assert done + [x] + rest.value == done + ([x] + rest.value);
      assert done == [] ==> done + [x] == [x];
    }
  }

  /** The loop over the files, with the totals it keeps. */
  method ReadFilesWithin(lib: Libraries, f: Format, payload: seq<byte>, directory: seq<Listed>, limits: Limits)
    returns (r: Option<seq<Entry>>)
    ensures var all := ReadEntries(f, payload, directory);
            r == if all.Some? && WithinLimits(lib, all.value, limits) then all else None
  {
    var entries: seq<Entry>, total := [], 0;
    ghost var all := ReadEntries(f, payload, directory);
    for i := 0 to |directory|
      invariant all == Prepend(entries, ReadEntries(f, payload, directory[i..]))
      invariant total == ContentSize(entries) && WithinLimits(lib, entries, limits)
    {
      assert directory[i..][0] == directory[i] && directory[i..][1..] == directory[i + 1..];
      var next := f.entry(payload, directory[i]);
      if next.None? {
        return None;
      }
      var e := next.value;
      PrependOne(entries, e, ReadEntries(f, payload, directory[i + 1..]));
      ContentOfConcat(entries, [e]);
      total := total + |e.bytes|;
      if !PortableEntry(lib, e, limits) || total > limits.contentBytes {
        BeyondLimits(lib, entries + [e], ReadEntries(f, payload, directory[i + 1..]), limits);
        return None;
      }
      entries := entries + [e];
    }
    return Some(entries);
  }

  lemma BeyondLimits(lib: Libraries, es: seq<Entry>, rest: Option<seq<Entry>>, limits: Limits)
    requires !WithinLimits(lib, es, limits)
    ensures var all := Prepend(es, rest); all.Some? ==> !WithinLimits(lib, all.value, limits)
  {
    if rest.Some? {
      ContentOfConcat(es, rest.value);
      assert forall e | e in es :: e in es + rest.value;
    }
  }

  method Decode(lib: Libraries, payload: seq<byte>, limits: Limits) returns (r: Option<seq<Entry>>)
    ensures forall es :: r == Some(es) <==>
              Encoded(lib, es, limits) == Some(payload) && |payload| <= limits.archiveBytes
  {
    r := DecodeChecked(lib, payload, limits);
    forall es
      ensures r == Some(es) <==>
              Encoded(lib, es, limits) == Some(payload) && |payload| <= limits.archiveBytes
    {
      DecodedExactly(lib, payload, limits, es);
    }
  }

  method ReadChecked(lib: Libraries, payload: seq<byte>, limits: Limits) returns (r: Option<seq<Entry>>)
    ensures r == ReadArchive(lib, payload, limits)
  {
    if |payload| > limits.archiveBytes || |payload| < 22 {
      return None;
    }
    var end := |payload| - 22;
    var footer := ReadEnd(payload, end);
    if footer.None? || !GoodEnd(footer.value, end, limits) {
      return None;
    }
    var directory := ListDirectory(Zip(lib), payload, footer.value.start, footer.value.count);
    if directory.None? || !DistinctNames(directory.value) {
      return None;
    }
    r := ReadFilesWithin(lib, Zip(lib), payload, directory.value, limits);
  }

  method DecodeChecked(lib: Libraries, payload: seq<byte>, limits: Limits) returns (r: Option<seq<Entry>>)
    ensures r == Decoded(lib, payload, limits)
  {
    var entries := ReadChecked(lib, payload, limits);
    if entries.None? {
      return None;
    }
    var again := Encode(lib, entries.value, limits);
    return if again == Some(payload) then entries else None;
  }
}
