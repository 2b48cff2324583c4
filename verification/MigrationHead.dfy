/** Finding the single head of a migration history from the files alone. */
module MigrationHead {
  import opened Sets
  import opened Wrappers

  /** What a file assigns to a name: nothing usable, None, a string, or a tuple. */
  datatype Literal = Unreadable | Null | Text(text: string) | Tuple(parts: seq<string>)

  datatype File = File(name: string, revision: Literal, parent: Literal)

  predicate Skipped(f: File) {
    "__" <= f.name
  }

  predicate Readable(f: File) {
    && f.revision.Text? && f.revision.text != ""
    && !f.parent.Unreadable? && (f.parent.Tuple? ==> "" !in f.parent.parts)
  }

  function ParentsOf(f: File): set<string> {
    match f.parent
    case Text(p) => {p}
    case Tuple(parts) => set p | p in parts
    case _ => {}
  }

  // ---- What is computed -----------------------------------------------------------

  ghost predicate AllReadable(files: seq<File>) {
    forall f | f in files && !Skipped(f) :: Readable(f)
  }

  ghost predicate UniqueRevisions(files: seq<File>) {
    forall i, j | 0 <= i < j < |files| && !Skipped(files[i]) && !Skipped(files[j]) ::
      files[i].revision != files[j].revision
  }

  ghost predicate IsRevision(files: seq<File>, r: string) {
    exists f | f in files :: !Skipped(f) && f.revision == Text(r)
  }

  ghost predicate IsParent(files: seq<File>, p: string) {
    exists f | f in files :: !Skipped(f) && p in ParentsOf(f)
  }

  ghost predicate SingleHead(files: seq<File>, head: string) {
    forall r :: IsRevision(files, r) && !IsParent(files, r) <==> r == head
  }

  ghost predicate HasHead(files: seq<File>, head: string) {
    && AllReadable(files) && UniqueRevisions(files)
    && (forall p | IsParent(files, p) :: IsRevision(files, p))
    && SingleHead(files, head)
  }

  lemma PrefixFacts(files: seq<File>, i: nat)
    requires i < |files|
    ensures forall f :: f in files[..i + 1] <==> f in files[..i] || f == files[i]
  {
    assert files[..i + 1] == files[..i] + [files[i]];
  }

  lemma DuplicateFound(files: seq<File>, i: nat)
    requires i < |files| && !Skipped(files[i]) && files[i].revision.Text?
    requires IsRevision(files[..i], files[i].revision.text)
    ensures !UniqueRevisions(files)
  {
    var f :| f in files[..i] && !Skipped(f) && f.revision == Text(files[i].revision.text);
    var k :| 0 <= k < i && files[..i][k] == f;
    assert files[k].revision == files[i].revision;
  }

  /** The loop over the files: the revisions, and what any of them names as a parent. */
  method Collect(files: seq<File>) returns (r: Option<(set<string>, set<string>)>)
    ensures r.Some? <==> AllReadable(files) && UniqueRevisions(files)
    ensures r.Some? ==> forall x :: x in r.value.0 <==> IsRevision(files, x)
    ensures r.Some? ==> forall x :: x in r.value.1 <==> IsParent(files, x)
  {
    var revisions: set<string>, parents: set<string> := {}, {};
    for i := 0 to |files|
      invariant AllReadable(files[..i]) && UniqueRevisions(files[..i])
      invariant forall x :: x in revisions <==> IsRevision(files[..i], x)
      invariant forall x :: x in parents <==> IsParent(files[..i], x)
    {
      var f := files[i];
      PrefixFacts(files, i);
      assert f in files;
      if !Skipped(f) {
        if !Readable(f) {
          return None;
        }
        if f.revision.text in revisions {
          DuplicateFound(files, i);
          return None;
        }
        UniqueOneMore(files, i);
        revisions := revisions + {f.revision.text};
        parents := parents + ParentsOf(f);
      }
    }
    assert files[..|files|] == files;
    return Some((revisions, parents));
  }

  lemma UniqueOneMore(files: seq<File>, i: nat)
    requires i < |files| && UniqueRevisions(files[..i]) && AllReadable(files[..i]) && Readable(files[i])
    requires !IsRevision(files[..i], files[i].revision.text)
    ensures UniqueRevisions(files[..i + 1])
  {
    var now := files[..i + 1];
    forall a, b | 0 <= a < b < |now| && !Skipped(now[a]) && !Skipped(now[b])
      ensures now[a].revision != now[b].revision
    {
      assert now[a] == files[..i][a] && files[..i][a] in files[..i];
      if b < i { assert now[b] == files[..i][b]; }
    }
  }

  /** Returns a revision exactly when all files are readable, revisions are unique, all
      parents exist, and that revision is the only one that is nobody's parent. */
  method Head(files: seq<File>) returns (r: Option<string>)
    ensures forall head :: r == Some(head) <==> HasHead(files, head)
  {
    var collected := Collect(files);
    if collected.None? {
      return None;
    }
    var (revisions, parents) := collected.value;
    if parents - revisions != {} {
      ghost var missing :| missing in parents - revisions;
      assert IsParent(files, missing) && !IsRevision(files, missing);
      return None;
    }
    var heads := revisions - parents;
    assert forall x :: x in heads <==> IsRevision(files, x) && !IsParent(files, x);
    if |heads| != 1 {
      NotSingle(heads);
      forall head ensures !HasHead(files, head) {
        assert SingleHead(files, head) ==> heads == {head};
      }
      return None;
    }
    var head := TheOne(heads);
    assert heads == {head};
    return Some(head);
  }

  lemma NotSingle(s: set<string>)
    requires |s| != 1
    ensures forall x :: s != {x}
  {
  }

  method TheOne(s: set<string>) returns (x: string)
    requires |s| == 1
    ensures s == {x}
  {
    x :| x in s;
    ghost var y := SomeElement(s);
  }

  // ---- What a head is worth -------------------------------------------------------

  type History = map<string, set<string>>

  /** The parents of each revision. */
  ghost predicate Describes(g: History, files: seq<File>) {
    && (forall r :: r in g <==> IsRevision(files, r))
    && forall f | f in files && !Skipped(f) && f.revision.Text? && f.revision.text in g ::
         g[f.revision.text] == ParentsOf(f)
  }

  /** `below` is reached from `r` by n parent edges. */
  ghost predicate Reaches(g: History, r: string, below: string, n: nat)
    decreases n
  {
    r in g && n >= 1 &&
    if n == 1 then below in g[r] else exists p | p in g[r] :: Reaches(g, p, below, n - 1)
  }

  ghost predicate Ancestor(g: History, below: string, r: string) {
    exists n: nat :: Reaches(g, r, below, n)
  }

  ghost predicate OnCycle(g: History, r: string) {
    Ancestor(g, r, r)
  }

  lemma {:induction false} OneMoreEdge(g: History, r: string, c: string, below: string, n: nat)
    requires Reaches(g, r, c, n) && c in g && below in g[c]
    ensures Reaches(g, r, below, n + 1)
    decreases n
  {
    if n == 1 {
      assert Reaches(g, c, below, 1);
    } else {
      var p :| p in g[r] && Reaches(g, p, c, n - 1);
      OneMoreEdge(g, p, c, below, n - 1);
    }
  }

  ghost function Descendants(g: History, r: string): set<string> {
    set d | d in g && Ancestor(g, r, d)
  }

  lemma ChildHasFewerDescendants(g: History, r: string, c: string)
    requires c in g && r in g[c] && !OnCycle(g, c)
    ensures |Descendants(g, c)| < |Descendants(g, r)|
  {
    forall d | d in Descendants(g, c) ensures d in Descendants(g, r) {
      var n: nat :| Reaches(g, d, c, n);
      OneMoreEdge(g, d, c, r, n);
    }
    assert Reaches(g, c, r, 1);
    assert c in Descendants(g, r) && c !in Descendants(g, c);
    ProperSubsetSize(Descendants(g, c), Descendants(g, r), c);
  }

  ghost predicate OnlyHead(g: History, head: string) {
    head in g && (forall r | r in g :: r != head <==> exists c | c in g :: r in g[c])
  }

  /** Climb from child to child until the head, or a cycle below it, is reached. */
  lemma {:induction false} Climb(g: History, head: string, r: string)
    requires OnlyHead(g, head) && r in g && r != head
    requires forall x | x in g && OnCycle(g, x) :: Ancestor(g, x, head)
    ensures Ancestor(g, r, head)
    decreases |Descendants(g, r)|
  {
    if !OnCycle(g, r) {
      var c :| c in g && r in g[c];
      if c == head {
        assert Reaches(g, head, r, 1);
      } else {
        if !OnCycle(g, c) {
          ChildHasFewerDescendants(g, r, c);
          Climb(g, head, c);
        }
        var n: nat :| Reaches(g, head, c, n);
        OneMoreEdge(g, head, c, r, n);
      }
    }
  }

  lemma {:induction false} ReachedHasChild(g: History, r: string, below: string, n: nat)
    requires Reaches(g, r, below, n)
    ensures exists c | c in g :: below in g[c]
    decreases n
  {
    if n > 1 {
      var p :| p in g[r] && Reaches(g, p, below, n - 1);
      ReachedHasChild(g, p, below, n - 1);
    }
  }

  /** The returned head has every other revision below it exactly when every revision that
      lies on a cycle is below it. */
  lemma HeadCoversExactly(g: History, head: string)
    requires OnlyHead(g, head)
    ensures (forall r | r in g && r != head :: Ancestor(g, r, head)) <==>
            (forall r | r in g && OnCycle(g, r) :: Ancestor(g, r, head))
  {
    if forall r | r in g && r != head :: Ancestor(g, r, head) {
      forall r | r in g && OnCycle(g, r) ensures Ancestor(g, r, head) {
        var n: nat :| Reaches(g, r, r, n);
        ReachedHasChild(g, r, r, n);
      }
    }
    if forall r | r in g && OnCycle(g, r) :: Ancestor(g, r, head) {
      forall r | r in g && r != head ensures Ancestor(g, r, head) {
        Climb(g, head, r);
      }
    }
  }

  /** Without cycles, then, the head covers the whole history. */
  lemma AcyclicHeadCovers(g: History, head: string, r: string)
    requires OnlyHead(g, head) && forall x | x in g :: !OnCycle(g, x)
    requires r in g && r != head
    ensures Ancestor(g, r, head)
  {
    HeadCoversExactly(g, head);
  }

  /** The head of the files is the only head of the history they describe. */
  lemma HeadIsOnlyHead(files: seq<File>, g: History, head: string)
    requires HasHead(files, head) && Describes(g, files)
    ensures OnlyHead(g, head)
  {
    assert IsRevision(files, head);
    forall r | r in g ensures r != head <==> exists c | c in g :: r in g[c] {
      assert IsRevision(files, r);
      if IsParent(files, r) {
        var f :| f in files && !Skipped(f) && r in ParentsOf(f);
        assert Readable(f) && f.revision == Text(f.revision.text);
        assert IsRevision(files, f.revision.text);
        assert r in g[f.revision.text];
      }
      if c :| c in g && r in g[c] {
        var f :| f in files && !Skipped(f) && f.revision == Text(c);
        assert r in ParentsOf(f);
      }
    }
  }

  /** The history of readable files. */
  function Graph(files: seq<File>): History
    requires AllReadable(files)
  {
    if files == [] then map[]
    else
      var f, before := files[|files| - 1], Graph(files[..|files| - 1]);
      assert f in files && (Skipped(f) || Readable(f));
      if Skipped(f) then before else before[f.revision.text := ParentsOf(f)]
  }

  lemma {:induction false} GraphDescribes(files: seq<File>)
    requires AllReadable(files) && UniqueRevisions(files)
    ensures Describes(Graph(files), files)
  {
    if files != [] {
      var n := |files| - 1;
      var init, last := files[..n], files[n];
      assert UniqueRevisions(init);
      GraphDescribes(init);
      assert files == init + [last];
      if !Skipped(last) { DescribesOneMore(Graph(init), init, last, files); }
    }
  }

  lemma DescribesOneMore(g: History, init: seq<File>, last: File, files: seq<File>)
    requires Describes(g, init) && files == init + [last] && !Skipped(last) && last.revision.Text?
    requires AllReadable(init) && UniqueRevisions(files)
    ensures Describes(g[last.revision.text := ParentsOf(last)], files)
  {
    var r := last.revision.text;
    forall f | f in init && !Skipped(f) ensures f.revision != Text(r) {
      var i :| 0 <= i < |init| && init[i] == f;
      assert files[i] == f && files[|init|] == last;
    }
    forall x ensures IsRevision(files, x) <==> IsRevision(init, x) || x == r {
      if IsRevision(init, x) {
        var f :| f in init && !Skipped(f) && f.revision == Text(x);
        assert f in files;
      }
      assert last in files;
    }
  }

  /** Of the files alone: the revision returned has every other one below it exactly when
      every revision on a cycle is below it, and always when there is no cycle. */
  lemma HeadOfFilesCovers(files: seq<File>, head: string)
    requires HasHead(files, head)
    ensures var g := Graph(files);
            && ((forall r | IsRevision(files, r) && r != head :: Ancestor(g, r, head)) <==>
                (forall r | IsRevision(files, r) && OnCycle(g, r) :: Ancestor(g, r, head)))
            && ((forall r :: !OnCycle(g, r)) ==>
                  forall r | IsRevision(files, r) && r != head :: Ancestor(g, r, head))
  {
    var g := Graph(files);
    GraphDescribes(files);
    HeadIsOnlyHead(files, g, head);
    HeadCoversExactly(g, head);
    assert forall r :: r in g <==> IsRevision(files, r);
  }

  lemma SkippedExactly(f: File)
    ensures Skipped(f) <==> |f.name| >= 2 && f.name[0] == '_' && f.name[1] == '_'
  {
    assert "__" == ['_', '_'];
  }

  /** A revision is a string with characters, and so is every part of a tuple of parents. */
  lemma ReadableExactly(f: File)
    ensures Readable(f) <==>
            && (exists r :: f.revision == Text(r) && |r| > 0) && f.parent != Unreadable
            && (f.parent.Tuple? ==> forall p | p in f.parent.parts :: |p| > 0)
  {
  }

  /** A file names the parents it lists: one, several for a merge, or none. */
  lemma ParentsExactly(f: File, p: string)
    ensures p in ParentsOf(f) <==> f.parent == Text(p) || (f.parent.Tuple? && p in f.parent.parts)
  {
  }

  /** A fork and its merge: the merge is the head, and both branches are its parents. */
  lemma MergeIsHead(files: seq<File>, a: string, b: string, c: string, d: string)
    requires "" !in {a, b, c, d} && |{a, b, c, d}| == 4
    requires files == [
               File("1.py", Text(a), Null), File("2.py", Text(b), Text(a)), File("3.py", Text(c), Text(a)),
               File("4.py", Text(d), Tuple([b, c]))]
    ensures HasHead(files, d)
  {
    assert a != b && a != c && a != d && b != c && b != d && c != d;
    FourFiles(files, files[0], files[1], files[2], files[3]);
    assert "__"[0] == '_' && forall i | 0 <= i < 4 :: files[i].name[0] != '_';
    assert ParentsOf(files[0]) == {} && ParentsOf(files[1]) == {a} && ParentsOf(files[2]) == {a};
    assert ParentsOf(files[3]) == {b, c} by {
      assert b in [b, c] && c in [b, c];
    }
    assert forall r :: IsRevision(files, r) <==> r in {a, b, c, d};
    assert forall p :: IsParent(files, p) <==> p in {a, b, c};
  }

  lemma FourFiles(files: seq<File>, a: File, b: File, c: File, d: File)
    requires files == [a, b, c, d]
    ensures forall f :: f in files <==> f == a || f == b || f == c || f == d
  {
  }

  // ---- A history that is not covered ----------------------------------------------

  const DETACHED: seq<File> := [
    File("a.py", Text("a"), Null),
    File("b.py", Text("b"), Text("c")),
    File("c.py", Text("c"), Text("b"))]

  const DETACHED_HISTORY: History := map["a" := {}, "b" := {"c"}, "c" := {"b"}]

  lemma ThreeFiles(files: seq<File>, a: File, b: File, c: File)
    requires files == [a, b, c]
    ensures forall f :: f in files <==> f == a || f == b || f == c
  {
  }

  lemma DetachedNames(files: seq<File>)
    requires files == DETACHED
    ensures forall f | f in files :: !Skipped(f) && Readable(f)
    ensures forall r :: IsRevision(files, r) <==> r in {"a", "b", "c"}
    ensures forall p :: IsParent(files, p) <==> p in {"b", "c"}
  {
    var a, b, c := DETACHED[0], DETACHED[1], DETACHED[2];
    ThreeFiles(files, a, b, c);
    assert "__"[0] == '_' && a.name[0] == 'a' && b.name[0] == 'b' && c.name[0] == 'c';
    assert ParentsOf(a) == {} && ParentsOf(b) == {"c"} && ParentsOf(c) == {"b"};
  }

  lemma DetachedHead(files: seq<File>)
    requires files == DETACHED
    ensures HasHead(files, "a")
  {
    DetachedNames(files);
    assert UniqueRevisions(files);
  }

  lemma DetachedDescribed(files: seq<File>, g: History)
    requires files == DETACHED && g == DETACHED_HISTORY
    ensures Describes(g, files)
  {
    DetachedNames(files);
    ThreeFiles(files, DETACHED[0], DETACHED[1], DETACHED[2]);
  }

  /** A cycle apart from the rest goes unnoticed. */
  lemma DetachedCycleIsAccepted()
    ensures HasHead(DETACHED, "a") && Describes(DETACHED_HISTORY, DETACHED)
    ensures !Ancestor(DETACHED_HISTORY, "b", "a")
  {
    DetachedHead(DETACHED);
    DetachedDescribed(DETACHED, DETACHED_HISTORY);
    assert DETACHED_HISTORY["a"] == {};
  }
}
