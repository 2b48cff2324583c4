/** The name rules of an archive: unique folded names, one spelling per shared directory,
    and no file above another entry. The program checks neighbours in folded order; the
    rules it stands for compare every pair. */
module ArchiveNames {
  import opened Libraries
  import opened Ordering
  import opened PortablePaths
  import Text
  import Utf8

  datatype Kind = File | Directory

  /** A directory's path carries no trailing separator. */
  datatype Entry = Entry(path: string, bytes: seq<Utf8.byte>, mode: nat, kind: Kind)

  function Key(lib: Libraries): Entry -> seq<int> {
    (e: Entry) => Codes(Fold(lib, e.path))
  }

  function Parts(e: Entry): seq<string> {
    Split(e.path)
  }

  // ---- What the program checks ----------------------------------------------------

  /** One pass of the inner loop: walk both paths while the parts fold alike. */
  predicate ScanPair(lib: Libraries, left: seq<string>, right: seq<string>) {
    || left == [] || right == []
    || Fold(lib, left[0]) != Fold(lib, right[0])
    || (left[0] == right[0] && ScanPair(lib, left[1..], right[1..]))
  }

  predicate ScanAt(lib: Libraries, sorted: seq<Entry>, i: nat)
    requires i + 1 < |sorted|
  {
    ScanPair(lib, Parts(sorted[i]), Parts(sorted[i + 1]))
  }

  ghost predicate NeighboursAlike(lib: Libraries, sorted: seq<Entry>) {
    forall i: nat | i + 1 < |sorted| :: ScanAt(lib, sorted, i)
  }

  /** No text before a separator of `path` folds to the name of a file. */
  ghost predicate NoFileAbove(lib: Libraries, path: string, es: seq<Entry>) {
    forall n, f | 0 <= n < |path| && path[n] == '/' && f in es && f.kind.File? ::
      Fold(lib, path[..n]) != Fold(lib, f.path)
  }

  ghost predicate Accepted(lib: Libraries, es: seq<Entry>) {
    && DistinctKeys(Key(lib), es)
    && NeighboursAlike(lib, Sort(Key(lib), es))
    && forall e | e in es :: NoFileAbove(lib, e.path, es)
  }

  // ---- What it stands for ---------------------------------------------------------

  /** If the first k parts fold alike, they are spelled alike. */
  ghost predicate AlikeUpTo(lib: Libraries, p: seq<string>, q: seq<string>, k: nat)
    requires k <= |p| && k <= |q|
  {
    FoldParts(lib, p[..k]) == FoldParts(lib, q[..k]) ==> p[..k] == q[..k]
  }

  ghost predicate Alike(lib: Libraries, p: seq<string>, q: seq<string>) {
    forall k: nat | k <= |p| && k <= |q| :: AlikeUpTo(lib, p, q, k)
  }

  /** Directories strictly above both. */
  ghost predicate AlikeAbove(lib: Libraries, p: seq<string>, q: seq<string>) {
    forall k: nat | k < |p| && k < |q| :: AlikeUpTo(lib, p, q, k)
  }

  ghost predicate FoldedAncestor(lib: Libraries, p: seq<string>, q: seq<string>) {
    |p| < |q| && FoldParts(lib, p) == FoldParts(lib, q[..|p|])
  }

  ghost predicate PairwisePortable(lib: Libraries, es: seq<Entry>) {
    && DistinctKeys(Key(lib), es)
    && forall x, y | x in es && y in es ::
         && Alike(lib, Parts(x), Parts(y))
         && (x.kind.File? ==> !FoldedAncestor(lib, Parts(x), Parts(y)))
  }

  /** Explicit directories are spelled as the entries below them spell them. */
  ghost predicate DirectoriesSpelled(lib: Libraries, es: seq<Entry>) {
    forall d, e | d in es && e in es && d.kind.Directory? &&
                  FoldedAncestor(lib, Parts(d), Parts(e)) :: Parts(d) <= Parts(e)
  }

  // ---- Proofs ---------------------------------------------------------------------

  lemma {:induction false} ScanPairMeaning(lib: Libraries, p: seq<string>, q: seq<string>)
    ensures ScanPair(lib, p, q) <==> Alike(lib, p, q)
  {
    if p != [] && q != [] {
      ScanPairMeaning(lib, p[1..], q[1..]);
      if Alike(lib, p, q) && Fold(lib, p[0]) == Fold(lib, q[0]) {
        assert AlikeUpTo(lib, p, q, 1);
        assert FoldParts(lib, p[..1]) == FoldParts(lib, q[..1]);
        assert p[0] == p[..1][0] && q[0] == q[..1][0];
        forall k: nat | k <= |p[1..]| && k <= |q[1..]| ensures AlikeUpTo(lib, p[1..], q[1..], k) {
          assert AlikeUpTo(lib, p, q, k + 1);
          AlikeTail(lib, p, q, k);
        }
      }
      if p[0] == q[0] && Alike(lib, p[1..], q[1..]) {
        forall k: nat | k <= |p| && k <= |q| ensures AlikeUpTo(lib, p, q, k) {
          if k > 0 {
            assert AlikeUpTo(lib, p[1..], q[1..], k - 1);
            AlikeTail(lib, p, q, k - 1);
          }
        }
      }
      if Fold(lib, p[0]) != Fold(lib, q[0]) {
        forall k: nat | k <= |p| && k <= |q| ensures AlikeUpTo(lib, p, q, k) {
          if k > 0 {
            assert FoldParts(lib, p[..k])[0] != FoldParts(lib, q[..k])[0];
          }
        }
      }
    }
  }

  lemma AlikeTail(lib: Libraries, p: seq<string>, q: seq<string>, k: nat)
    requires k < |p| && k < |q| && p[0] == q[0]
    ensures AlikeUpTo(lib, p, q, k + 1) <==> AlikeUpTo(lib, p[1..], q[1..], k)
  {
    assert p[..k + 1] == [p[0]] + p[1..][..k] && q[..k + 1] == [q[0]] + q[1..][..k];
    var a, b := p[1..][..k], q[1..][..k];
    assert FoldParts(lib, p[..k + 1]) == [Fold(lib, p[0])] + FoldParts(lib, a);
    assert FoldParts(lib, q[..k + 1]) == [Fold(lib, q[0])] + FoldParts(lib, b);
    assert p[..k + 1][1..] == a && q[..k + 1][1..] == b;
    assert FoldParts(lib, p[..k + 1])[1..] == FoldParts(lib, a);
    assert FoldParts(lib, q[..k + 1])[1..] == FoldParts(lib, b);
  }

  /** A path folds to text that starts with its folded directory and a separator. */
  lemma FoldedHead(lib: Libraries, path: string, k: nat)
    requires FoldLaw(lib) && k < |Split(path)|
    ensures Head(FoldParts(lib, Split(path)[..k])) <= Fold(lib, path)
  {
    FoldSplit(lib, path);
    HeadOfSplit(Fold(lib, path), k);
    assert FoldParts(lib, Split(path))[..k] == FoldParts(lib, Split(path)[..k]);
  }

  lemma BelowFoldedHead(lib: Libraries, parts: seq<string>, path: string)
    requires FoldLaw(lib) && forall part | part in parts :: '/' !in part
    requires Head(parts) <= Fold(lib, path)
    ensures |parts| < |Split(path)| && FoldParts(lib, Split(path)[..|parts|]) == parts
  {
    FoldSplit(lib, path);
    SplitOfHead(parts, Fold(lib, path));
    assert FoldParts(lib, Split(path))[..|parts|] == FoldParts(lib, Split(path)[..|parts|]);
  }

  lemma FoldedPartsHaveNoSlash(lib: Libraries, path: string, k: nat)
    requires FoldLaw(lib) && k <= |Split(path)|
    ensures forall part | part in FoldParts(lib, Split(path)[..k]) :: '/' !in part
  {
    FoldSplit(lib, path);
    assert FoldParts(lib, Split(path)[..k]) == Split(Fold(lib, path))[..k];
  }

  /** Everything between two entries of one directory, in folded order, lies in it. */
  lemma BetweenSiblings(lib: Libraries, x: Entry, y: Entry, z: Entry, k: nat)
    requires FoldLaw(lib) && k < |Parts(x)| && k < |Parts(z)|
    requires FoldParts(lib, Parts(x)[..k]) == FoldParts(lib, Parts(z)[..k])
    requires Less(Key(lib)(x), Key(lib)(y)) && Less(Key(lib)(y), Key(lib)(z))
    ensures k < |Parts(y)| && FoldParts(lib, Parts(y)[..k]) == FoldParts(lib, Parts(x)[..k])
  {
    var d := FoldParts(lib, Parts(x)[..k]);
    FoldedHead(lib, x.path, k);
    FoldedHead(lib, z.path, k);
    CodesPrefix(Head(d), Fold(lib, x.path));
    CodesPrefix(Head(d), Fold(lib, z.path));
    PrefixContiguous(Codes(Head(d)), Key(lib)(x), Key(lib)(y), Key(lib)(z));
    CodesPrefix(Head(d), Fold(lib, y.path));
    FoldedPartsHaveNoSlash(lib, x.path, k);
    BelowFoldedHead(lib, d, y.path);
  }

  lemma NeighbourAlike(lib: Libraries, s: seq<Entry>, i: nat, k: nat)
    requires NeighboursAlike(lib, s) && i + 1 < |s| && k <= |Parts(s[i])| && k <= |Parts(s[i + 1])|
    requires FoldParts(lib, Parts(s[i])[..k]) == FoldParts(lib, Parts(s[i + 1])[..k])
    ensures Parts(s[i])[..k] == Parts(s[i + 1])[..k]
  {
    assert ScanAt(lib, s, i);
    ScanPairMeaning(lib, Parts(s[i]), Parts(s[i + 1]));
    assert AlikeUpTo(lib, Parts(s[i]), Parts(s[i + 1]), k);
  }

  /** So equal spelling travels along the folded order from neighbour to neighbour. */
  lemma {:induction false} SharedDirectory(lib: Libraries, s: seq<Entry>, i: nat, j: nat, k: nat)
    requires FoldLaw(lib) && Increasing(Key(lib), s) && NeighboursAlike(lib, s)
    requires i <= j < |s| && k < |Parts(s[i])| && k < |Parts(s[j])|
    requires FoldParts(lib, Parts(s[i])[..k]) == FoldParts(lib, Parts(s[j])[..k])
    ensures Parts(s[i])[..k] == Parts(s[j])[..k]
    decreases j - i
  {
    if i < j {
      if i + 1 < j { BetweenSiblings(lib, s[i], s[i + 1], s[j], k); }
      NeighbourAlike(lib, s, i, k);
      SharedDirectory(lib, s, i + 1, j, k);
    }
  }

  lemma SortedIndex(lib: Libraries, es: seq<Entry>, x: Entry) returns (i: nat)
    requires x in es
    ensures i < |Sort(Key(lib), es)| && Sort(Key(lib), es)[i] == x
  {
    SameMembers(Sort(Key(lib), es), es);
    i :| 0 <= i < |Sort(Key(lib), es)| && Sort(Key(lib), es)[i] == x;
  }

  /** An accepted list spells every directory strictly above two entries in one way. */
  lemma AcceptedSharesDirectories(lib: Libraries, es: seq<Entry>, x: Entry, y: Entry)
    requires FoldLaw(lib) && Accepted(lib, es) && x in es && y in es
    ensures AlikeAbove(lib, Parts(x), Parts(y))
  {
    var s := Sort(Key(lib), es);
    SortIncreasing(Key(lib), es);
    var i := SortedIndex(lib, es, x);
    var j := SortedIndex(lib, es, y);
    forall k: nat | k < |Parts(x)| && k < |Parts(y)| ensures AlikeUpTo(lib, Parts(x), Parts(y), k) {
      if FoldParts(lib, Parts(x)[..k]) == FoldParts(lib, Parts(y)[..k]) {
        if i <= j { SharedDirectory(lib, s, i, j, k); } else { SharedDirectory(lib, s, j, i, k); }
      }
    }
  }

  /** The parents of a path are exactly the texts before its separators. */
  lemma ParentParts(path: string, n: nat)
    requires n < |path| && path[n] == '/'
    ensures |Split(path[..n])| < |Split(path)|
    ensures Split(path[..n]) == Split(path)[..|Split(path[..n])|]
  {
    assert path == path[..n] + "/" + path[n + 1..];
    SplitSlash(path[..n], path[n + 1..]);
  }

  lemma {:induction false} HeadLast(parts: seq<string>)
    requires parts != []
    ensures Head(parts) == Head(parts[..|parts| - 1]) + parts[|parts| - 1] + "/"
  {
    if |parts| > 1 {
      HeadLast(parts[1..]);
      assert parts[..|parts| - 1][1..] == parts[1..][..|parts| - 2];
    } else {
      assert Head(parts) == parts[0] + "/" + Head([]);
    }
  }

  lemma ParentIndex(path: string, m: nat) returns (n: nat)
    requires 0 < m < |Split(path)|
    ensures n < |path| && path[n] == '/' && Split(path[..n]) == Split(path)[..m]
  {
    var parts := Split(path)[..m];
    HeadOfSplit(path, m);
    HeadLast(parts);
    n := |Head(parts)| - 1;
    assert path[n] == Head(parts)[n] == '/';
    ParentParts(path, n);
    var parent := Head(parts[..m - 1]) + parts[m - 1];
    assert path[..n] == Head(parts)[..n] == parent;
    SplitOfHead(parts[..m - 1], parent);
    SplitJoin(parent);
    var got := Split(parent);
    assert |got| == m by {
      HeadGlue(parts[..m - 1], parts[m - 1]);
    }
  }

  lemma HeadThenLast(first: string, head: string, last: string)
    ensures first + "/" + head + last == first + "/" + (head + last)
  {
  }

  lemma SplitPlain(part: string)
    requires '/' !in part
    ensures Split(part) == [part]
  {
    Text.SplitWhole('/', part);
  }

  lemma {:induction false} HeadGlue(parts: seq<string>, last: string)
    requires '/' !in last && forall part | part in parts :: '/' !in part
    ensures Split(Head(parts) + last) == parts + [last]
  {
    if parts == [] {
      SplitPlain(last);
      assert Head(parts) + last == last;
    } else {
      var first, rest := parts[0], parts[1..];
      assert first in parts && parts == [first] + rest;
      HeadGlue(rest, last);
      HeadThenLast(first, Head(rest), last);
      SplitSlash(first, Head(rest) + last);
      SplitPlain(first);
      assert [first] + (rest + [last]) == parts + [last];
    }
  }

  lemma NoFileAboveMeaning(lib: Libraries, path: string, es: seq<Entry>)
    requires FoldLaw(lib)
    ensures NoFileAbove(lib, path, es) <==>
            forall f | f in es && f.kind.File? :: !FoldedAncestor(lib, Parts(f), Split(path))
  {
    var parts := Split(path);
    if NoFileAbove(lib, path, es) {
      forall f | f in es && f.kind.File? ensures !FoldedAncestor(lib, Parts(f), parts) {
        if FoldedAncestor(lib, Parts(f), parts) {
          var n := ParentIndex(path, |Parts(f)|);
          FoldEqualParts(lib, path[..n], f.path);
          assert false;
        }
      }
    }
    if forall f | f in es && f.kind.File? :: !FoldedAncestor(lib, Parts(f), parts) {
      forall n, f | 0 <= n < |path| && path[n] == '/' && f in es && f.kind.File?
        ensures Fold(lib, path[..n]) != Fold(lib, f.path)
      {
        ParentParts(path, n);
        FoldEqualParts(lib, path[..n], f.path);
        if Fold(lib, path[..n]) == Fold(lib, f.path) {
          assert |FoldParts(lib, Parts(f))| == |Split(path[..n])|;
          assert FoldedAncestor(lib, Parts(f), parts);
        }
      }
    }
  }

  lemma DistinctPair(lib: Libraries, es: seq<Entry>, x: Entry, y: Entry)
    requires DistinctKeys(Key(lib), es) && x in es && y in es
    requires Fold(lib, x.path) == Fold(lib, y.path)
    ensures x == y
  {
    var i :| 0 <= i < |es| && es[i] == x;
    var j :| 0 <= j < |es| && es[j] == y;
    assert Key(lib)(es[i]) == Key(lib)(es[j]);
  }

  /** One folded path at or above another: only a spelled directory makes them alike. */
  lemma AlikeAtEnd(lib: Libraries, es: seq<Entry>, x: Entry, y: Entry)
    requires FoldLaw(lib) && Accepted(lib, es) && DirectoriesSpelled(lib, es)
    requires x in es && y in es && |Parts(x)| <= |Parts(y)|
    ensures AlikeUpTo(lib, Parts(x), Parts(y), |Parts(x)|)
  {
    var p, q := Parts(x), Parts(y);
    var k := |p|;
    assert p[..k] == p;
    if FoldParts(lib, p[..k]) == FoldParts(lib, q[..k]) {
      if k == |q| {
        assert q[..k] == q;
        FoldEqualParts(lib, x.path, y.path);
        DistinctPair(lib, es, x, y);
      } else {
        assert FoldedAncestor(lib, p, q);
        NoFileAboveMeaning(lib, y.path, es);
        assert x.kind.Directory?;
        assert p <= q;
      }
    }
  }

  lemma AcceptedAlike(lib: Libraries, es: seq<Entry>, x: Entry, y: Entry)
    requires FoldLaw(lib) && Accepted(lib, es) && DirectoriesSpelled(lib, es)
    requires x in es && y in es && |Parts(x)| <= |Parts(y)|
    ensures Alike(lib, Parts(x), Parts(y)) && Alike(lib, Parts(y), Parts(x))
  {
    AcceptedSharesDirectories(lib, es, x, y);
    AlikeAtEnd(lib, es, x, y);
    forall k: nat | k <= |Parts(x)| ensures AlikeUpTo(lib, Parts(x), Parts(y), k) {
      assert k < |Parts(x)| ==> AlikeUpTo(lib, Parts(x), Parts(y), k);
    }
    forall k: nat | k <= |Parts(x)| ensures AlikeUpTo(lib, Parts(y), Parts(x), k) {
      assert AlikeUpTo(lib, Parts(x), Parts(y), k);
    }
  }

  lemma AcceptedIsPairwise(lib: Libraries, es: seq<Entry>)
    requires FoldLaw(lib) && Accepted(lib, es) && DirectoriesSpelled(lib, es)
    ensures PairwisePortable(lib, es)
  {
    forall x, y | x in es && y in es
      ensures Alike(lib, Parts(x), Parts(y))
      ensures x.kind.File? ==> !FoldedAncestor(lib, Parts(x), Parts(y))
    {
      if |Parts(x)| <= |Parts(y)| { AcceptedAlike(lib, es, x, y); } else { AcceptedAlike(lib, es, y, x); }
      NoFileAboveMeaning(lib, y.path, es);
    }
  }

  lemma PairwiseIsAccepted(lib: Libraries, es: seq<Entry>)
    requires FoldLaw(lib) && PairwisePortable(lib, es)
    ensures Accepted(lib, es) && DirectoriesSpelled(lib, es)
  {
    var s := Sort(Key(lib), es);
    SameMembers(s, es);
    forall i: nat | i + 1 < |s| ensures ScanAt(lib, s, i) {
      assert s[i] in es && s[i + 1] in es;
      ScanPairMeaning(lib, Parts(s[i]), Parts(s[i + 1]));
    }
    forall e | e in es ensures NoFileAbove(lib, e.path, es) {
      NoFileAboveMeaning(lib, e.path, es);
    }
    forall d, e | d in es && e in es && d.kind.Directory? && FoldedAncestor(lib, Parts(d), Parts(e))
      ensures Parts(d) <= Parts(e)
    {
      assert AlikeUpTo(lib, Parts(d), Parts(e), |Parts(d)|);
      assert Parts(d)[..|Parts(d)|] == Parts(d);
    }
  }

  /** The neighbour scan, and one condition on explicit directories, are together exactly
      the pairwise rules. */
  lemma AcceptedExactly(lib: Libraries, es: seq<Entry>)
    requires FoldLaw(lib)
    ensures PairwisePortable(lib, es) <==> Accepted(lib, es) && DirectoriesSpelled(lib, es)
  {
    if Accepted(lib, es) && DirectoriesSpelled(lib, es) { AcceptedIsPairwise(lib, es); }
    if PairwisePortable(lib, es) { PairwiseIsAccepted(lib, es); }
  }

  /** Lists of files alone, which is what component trees are made of. */
  lemma AcceptedFilesExactly(lib: Libraries, es: seq<Entry>)
    requires FoldLaw(lib) && forall e | e in es :: e.kind.File?
    ensures Accepted(lib, es) <==> PairwisePortable(lib, es)
  {
    AcceptedExactly(lib, es);
  }

  // ---- Where the scan is blind ----------------------------------------------------

  /** No folded name extends a directory's folded name by a character below the separator,
      so nothing is sorted between a directory and its contents. */
  ghost predicate ClearOfDirectories(lib: Libraries, es: seq<Entry>) {
    forall d, x | d in es && x in es && d.kind.Directory? ::
      var k, n := Fold(lib, d.path), Fold(lib, x.path);
      k <= n && |k| < |n| ==> '/' <= n[|k|]
  }

  lemma HeadOfFolded(lib: Libraries, path: string)
    requires FoldLaw(lib)
    ensures Head(FoldParts(lib, Split(path))) == Fold(lib, path) + "/"
  {
    FoldSplit(lib, path);
    var parts := Split(Fold(lib, path));
    SplitJoin(Fold(lib, path));
    HeadLast(parts);
  }

  lemma {:induction false} NextAfterPrefix(p: seq<int>, a: seq<int>, b: seq<int>)
    requires p <= a && p <= b && |p| < |a| && |p| < |b| && Less(a, b)
    ensures a[|p|] <= b[|p|]
  {
    if p != [] {
      NextAfterPrefix(p[1..], a[1..], b[1..]);
    }
  }

  lemma {:induction false} PrefixLess(p: seq<int>, a: seq<int>)
    requires p <= a && |p| < |a|
    ensures Less(p, a)
  {
    if p != [] { PrefixLess(p[1..], a[1..]); }
  }

  lemma BetweenDirectoryAndContents(name: string, next: string, below: string)
    requires name + "/" <= below
    requires Less(Codes(name), Codes(next)) && Less(Codes(next), Codes(below))
    requires name <= next && |name| < |next| ==> '/' <= next[|name|]
    ensures name + "/" <= next
  {
    CodesPrefix(name, below);
    PrefixContiguous(Codes(name), Codes(name), Codes(next), Codes(below));
    CodesPrefix(name, next);
    if |next| == |name| {
      assert next == name;
      LessIrreflexive(Codes(name));
    } else {
      NextAfterPrefix(Codes(name), Codes(next), Codes(below));
      assert next[|name|] as int <= below[|name|] as int;
      assert below[|name|] == (name + "/")[|name|] == '/';
    }
  }

  /** The neighbour right after a directory that has contents lies inside it. */
  lemma AfterDirectory(lib: Libraries, s: seq<Entry>, i: nat, j: nat)
    requires FoldLaw(lib) && Increasing(Key(lib), s) && ClearOfDirectories(lib, s)
    requires i < |s| && j < |s| && s[i].kind.Directory?
    requires FoldedAncestor(lib, Parts(s[i]), Parts(s[j]))
    ensures i < j && FoldedAncestor(lib, Parts(s[i]), Parts(s[i + 1]))
  {
    var name, below := Fold(lib, s[i].path), Fold(lib, s[j].path);
    DirectoryBeforeContents(lib, s[i], s[j]);
    if j <= i {
      if j < i { LessTransitive(Codes(name), Codes(below), Codes(name)); }
      LessIrreflexive(Codes(name));
      assert false;
    }
    if i + 1 < j {
      var next := Fold(lib, s[i + 1].path);
      assert s[i] in s && s[i + 1] in s;
      assert Key(lib)(s[i + 1]) == Codes(next);
      BetweenDirectoryAndContents(name, next, below);
      HeadOfFolded(lib, s[i].path);
      FoldedPartsHaveNoSlash(lib, s[i].path, |Parts(s[i])|);
      assert Parts(s[i])[..|Parts(s[i])|] == Parts(s[i]);
      BelowFoldedHead(lib, FoldParts(lib, Parts(s[i])), s[i + 1].path);
    }
  }

  lemma DirectoryBeforeContents(lib: Libraries, d: Entry, e: Entry)
    requires FoldLaw(lib) && FoldedAncestor(lib, Parts(d), Parts(e))
    ensures Fold(lib, d.path) + "/" <= Fold(lib, e.path)
    ensures Less(Key(lib)(d), Key(lib)(e))
  {
    FoldedHead(lib, e.path, |Parts(d)|);
    HeadOfFolded(lib, d.path);
    CodesPrefix(Fold(lib, d.path), Fold(lib, e.path));
    PrefixLess(Key(lib)(d), Key(lib)(e));
  }

  /** With nothing in between, the scan alone is the pairwise rules. */
  lemma ClearScanIsComplete(lib: Libraries, es: seq<Entry>)
    requires FoldLaw(lib) && ClearOfDirectories(lib, es)
    ensures Accepted(lib, es) <==> PairwisePortable(lib, es)
  {
    AcceptedExactly(lib, es);
    if Accepted(lib, es) {
      var s := Sort(Key(lib), es);
      SortIncreasing(Key(lib), es);
      SameMembers(s, es);
      assert ClearOfDirectories(lib, s);
      forall d, e | d in es && e in es && d.kind.Directory? && FoldedAncestor(lib, Parts(d), Parts(e))
        ensures Parts(d) <= Parts(e)
      {
        var i := SortedIndex(lib, es, d);
        var j := SortedIndex(lib, es, e);
        AfterDirectory(lib, s, i, j);
        assert s[i + 1] in s;
        DirectorySpelledByNext(lib, es, d, s[i + 1], e, i);
      }
    }
  }

  lemma DirectorySpelledByNext(lib: Libraries, es: seq<Entry>, d: Entry, next: Entry, e: Entry, i: nat)
    requires FoldLaw(lib) && Accepted(lib, es) && next in es && e in es
    requires i + 1 < |es| && Sort(Key(lib), es)[i] == d && Sort(Key(lib), es)[i + 1] == next
    requires FoldedAncestor(lib, Parts(d), Parts(next)) && FoldedAncestor(lib, Parts(d), Parts(e))
    ensures Parts(d) <= Parts(e)
  {
    var k := |Parts(d)|;
    assert Parts(d)[..k] == Parts(d);
    assert ScanAt(lib, Sort(Key(lib), es), i);
    ScanPairMeaning(lib, Parts(d), Parts(next));
    assert AlikeUpTo(lib, Parts(d), Parts(next), k);
    AcceptedSharesDirectories(lib, es, next, e);
    assert AlikeUpTo(lib, Parts(next), Parts(e), k);
  }

  // ---- The shortest list the scan misses ------------------------------------------

  const HIDDEN: seq<Entry> := [
    Entry("a", [], 0x1ED, Directory),
    Entry("a-b", [], 0x1A4, File),
    Entry("A/b", [], 0x1A4, File)]

  lemma HiddenParts()
    ensures Split("a") == ["a"] && Split("a-b") == ["a-b"] && Split("A/b") == ["A", "b"]
  {
    SplitGlue("a", ""); SplitGlue("a-b", ""); SplitGlue("A", ""); SplitGlue("b", "");
    assert "a" + "" == "a" && "a-b" + "" == "a-b" && "A" + "" == "A" && "b" + "" == "b";
    assert "A" + "/" + "b" == "A/b";
    SplitSlash("A", "b");
  }

  lemma HiddenSorted(lib: Libraries)
    requires lib.fold == AsciiLower
    ensures DistinctKeys(Key(lib), HIDDEN) && Sort(Key(lib), HIDDEN) == HIDDEN
  {
    var k := Key(lib);
    FoldAscii(lib, "a"); FoldAscii(lib, "a-b"); FoldAscii(lib, "A/b");
    assert k(HIDDEN[0]) == [97] && k(HIDDEN[1]) == [97, 45, 98] && k(HIDDEN[2]) == [97, 47, 98];
    assert [97, 45, 98][1..] == [45, 98] && [97, 47, 98][1..] == [47, 98];
    assert Increasing(k, HIDDEN);
    IncreasingDistinct(k, HIDDEN);
    SortFixed(k, HIDDEN);
  }

  lemma HiddenNeighbours(lib: Libraries)
    requires lib.fold == AsciiLower
    ensures NeighboursAlike(lib, HIDDEN)
  {
    HiddenParts();
    FoldAscii(lib, "a"); FoldAscii(lib, "A"); FoldAscii(lib, "a-b");
    assert |Fold(lib, "a")| == 1 && |Fold(lib, "A")| == 1 && |Fold(lib, "a-b")| == 3;
    assert ScanPair(lib, ["a"], ["a-b"]);
    assert ScanPair(lib, ["a-b"], ["A", "b"]);
    assert ScanAt(lib, HIDDEN, 0) && ScanAt(lib, HIDDEN, 1);
  }

  lemma HiddenFiles(lib: Libraries, path: string)
    requires lib.fold == AsciiLower && path in ["a", "a-b", "A/b"]
    ensures NoFileAbove(lib, path, HIDDEN)
  {
    FoldAscii(lib, "A"); FoldAscii(lib, "a-b"); FoldAscii(lib, "A/b");
    forall n, f | 0 <= n < |path| && path[n] == '/' && f in HIDDEN && f.kind.File?
      ensures Fold(lib, path[..n]) != Fold(lib, f.path)
    {
      assert path == "A/b" && n == 1;
      assert path[..1] == "A";
      assert f == HIDDEN[1] || f == HIDDEN[2];
      assert |Fold(lib, f.path)| == 3;
    }
  }

  lemma HiddenAccepted(lib: Libraries)
    requires lib.fold == AsciiLower
    ensures Accepted(lib, HIDDEN)
  {
    HiddenSorted(lib);
    HiddenNeighbours(lib);
    forall e | e in HIDDEN ensures NoFileAbove(lib, e.path, HIDDEN) {
      HiddenFiles(lib, e.path);
    }
  }

  lemma SpelledApart(lib: Libraries, p: seq<string>, q: seq<string>)
    requires lib.fold == AsciiLower && p == ["a"] && q == ["A", "b"]
    ensures !Alike(lib, p, q)
  {
    FoldAscii(lib, "a"); FoldAscii(lib, "A");
    assert Fold(lib, "a") == "a" == Fold(lib, "A");
    assert p[..1] == ["a"] && q[..1] == ["A"];
    assert !AlikeUpTo(lib, p, q, 1);
  }

  lemma AsciiFoldLaw(lib: Libraries)
    requires lib.fold == AsciiLower
    ensures FoldLaw(lib)
  {
  }

  /** Directory "a" and file "A/b" disagree on one directory, and "a-b" sorts between them. */
  lemma HiddenSpellingConflict(lib: Libraries)
    requires lib.fold == AsciiLower
    ensures FoldLaw(lib) && Accepted(lib, HIDDEN) && !PairwisePortable(lib, HIDDEN)
  {
    AsciiFoldLaw(lib);
    HiddenAccepted(lib);
    assert !PairwisePortable(lib, HIDDEN) by {
      if PairwisePortable(lib, HIDDEN) {
        var d, e := HIDDEN[0], HIDDEN[2];
        assert d in HIDDEN && e in HIDDEN;
        assert Alike(lib, Parts(d), Parts(e));
        HiddenParts();
        SpelledApart(lib, Parts(d), Parts(e));
      }
    }
  }

  lemma {:induction false} FoldAscii(lib: Libraries, s: string)
    requires lib.fold == AsciiLower
    ensures |Fold(lib, s)| == |s|
    ensures forall i | 0 <= i < |s| :: Fold(lib, s)[i] == AsciiLower(s[i])[0]
  {
    if s != "" { FoldAscii(lib, s[1..]); }
  }
}
