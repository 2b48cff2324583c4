/** Lexicographic order on integer sequences, strictly increasing sequences under it, and
    what does not depend on order.
    Every ordered container of the program (folded archive names, component paths, JSON
    keys) is a sequence that is `Increasing` for its own key function. */
module Ordering {

  predicate Less(a: seq<int>, b: seq<int>) {
    b != [] && (a == [] || a[0] < b[0] || (a[0] == b[0] && Less(a[1..], b[1..])))
  }

  lemma {:induction false} LessIrreflexive(a: seq<int>)
    ensures !Less(a, a)
  {
    if a != [] { LessIrreflexive(a[1..]); }
  }

  lemma {:induction false} LessTransitive(a: seq<int>, b: seq<int>, c: seq<int>)
    requires Less(a, b) && Less(b, c)
    ensures Less(a, c)
  {
    if a != [] && a[0] == b[0] == c[0] {
      LessTransitive(a[1..], b[1..], c[1..]);
    }
  }

  lemma {:induction false} LessTotal(a: seq<int>, b: seq<int>)
    ensures a == b || Less(a, b) || Less(b, a)
  {
    if a != [] && b != [] && a[0] == b[0] {
      LessTotal(a[1..], b[1..]);
      assert a == [a[0]] + a[1..] && b == [b[0]] + b[1..];
    }
  }

  /** Strings that share a prefix are contiguous in the order. */
  lemma {:induction false} PrefixContiguous(p: seq<int>, a: seq<int>, b: seq<int>, c: seq<int>)
    requires p <= a && p <= c
    requires Less(a, b) && Less(b, c)
    ensures p <= b
  {
    if p != [] {
      assert a[0] == b[0] == c[0] == p[0];
      PrefixContiguous(p[1..], a[1..], b[1..], c[1..]);
      assert p == [p[0]] + p[1..] && b == [b[0]] + b[1..];
    }
  }

  ghost predicate Increasing<T(!new)>(key: T -> seq<int>, s: seq<T>) {
    forall i, j {:trigger key(s[i]), key(s[j])} | 0 <= i < j < |s| :: Less(key(s[i]), key(s[j]))
  }

  ghost predicate DistinctKeys<T(!new)>(key: T -> seq<int>, s: seq<T>) {
    forall i, j {:trigger key(s[i]), key(s[j])} | 0 <= i < j < |s| :: key(s[i]) != key(s[j])
  }

  lemma IncreasingDistinct<T(!new)>(key: T -> seq<int>, s: seq<T>)
    requires Increasing(key, s)
    ensures DistinctKeys(key, s)
  {
    forall i, j | 0 <= i < j < |s| ensures key(s[i]) != key(s[j]) {
      LessIrreflexive(key(s[i]));
    }
  }

  /** A strictly increasing sequence is determined by its elements. */
  lemma {:induction false} IncreasingUnique<T(!new)>(key: T -> seq<int>, s: seq<T>, t: seq<T>)
    requires Increasing(key, s) && Increasing(key, t)
    requires forall x :: x in s <==> x in t
    ensures s == t
  {
    assert s != [] ==> s[0] in s;
    assert t != [] ==> t[0] in t;
    if s != [] && t != [] {
      var i :| 0 <= i < |t| && t[i] == s[0];
      var j :| 0 <= j < |s| && s[j] == t[0];
      if i > 0 && j > 0 {
        LessTransitive(key(s[0]), key(t[0]), key(s[0]));
        LessIrreflexive(key(s[0]));
      }
      assert s[0] == t[0];
      forall x ensures x in s[1..] <==> x in t[1..] {
        LessIrreflexive(key(s[0]));
        assert x in s <==> x == s[0] || x in s[1..];
        assert x in t <==> x == t[0] || x in t[1..];
      }
      IncreasingUnique(key, s[1..], t[1..]);
      assert s == [s[0]] + s[1..] && t == [t[0]] + t[1..];
    }
  }

  /** Insertion into an ordered map, after every key that is not greater. */
  function Insert<T>(key: T -> seq<int>, x: T, s: seq<T>): (r: seq<T>)
    ensures |r| == |s| + 1 && multiset(r) == multiset(s) + multiset{x}
  {
    if s == [] then [x]
    else if Less(key(x), key(s[0])) then [x] + s
    else
      assert s == [s[0]] + s[1..];
      [s[0]] + Insert(key, x, s[1..])
  }

  function Sort<T>(key: T -> seq<int>, s: seq<T>): (r: seq<T>)
    ensures |r| == |s| && multiset(r) == multiset(s)
  {
    if s == [] then []
    else
      assert s == s[..|s| - 1] + [s[|s| - 1]];
      Insert(key, s[|s| - 1], Sort(key, s[..|s| - 1]))
  }

  lemma SameMembers<T>(s: seq<T>, t: seq<T>)
    requires multiset(s) == multiset(t)
    ensures forall x :: x in s <==> x in t
  {
    forall x ensures x in s <==> x in t {
      assert x in s <==> x in multiset(s);
    }
  }

  lemma {:induction false} InsertIncreasing<T(!new)>(key: T -> seq<int>, x: T, s: seq<T>)
    requires Increasing(key, s)
    requires forall y | y in s :: key(y) != key(x)
    ensures Increasing(key, Insert(key, x, s))
  {
    if s != [] {
      LessTotal(key(x), key(s[0]));
      if Less(key(x), key(s[0])) {
        forall j | 0 < j < |s| ensures Less(key(x), key(s[j])) {
          LessTransitive(key(x), key(s[0]), key(s[j]));
        }
      } else {
        assert Less(key(s[0]), key(x)) by { assert s[0] in s; }
        InsertIncreasing(key, x, s[1..]);
        var t := Insert(key, x, s[1..]);
        SameMembers(t, s[1..] + [x]);
        forall j | 0 <= j < |t| ensures Less(key(s[0]), key(t[j])) {
          assert t[j] in s[1..] + [x];
        }
      }
    }
  }

  lemma {:induction false} SortIncreasing<T(!new)>(key: T -> seq<int>, s: seq<T>)
    requires DistinctKeys(key, s)
    ensures Increasing(key, Sort(key, s))
  {
    if s != [] {
      var n := |s| - 1;
      SortIncreasing(key, s[..n]);
      SameMembers(Sort(key, s[..n]), s[..n]);
      InsertIncreasing(key, s[n], Sort(key, s[..n]));
    }
  }

  /** Sorting forgets the order it was given. */
  lemma SortPermutation<T(!new)>(key: T -> seq<int>, s: seq<T>, t: seq<T>)
    requires DistinctKeys(key, s) && DistinctKeys(key, t)
    requires forall x :: x in s <==> x in t
    ensures Sort(key, s) == Sort(key, t)
  {
    SortIncreasing(key, s);
    SortIncreasing(key, t);
    SameMembers(Sort(key, s), s);
    SameMembers(Sort(key, t), t);
    IncreasingUnique(key, Sort(key, s), Sort(key, t));
  }

  lemma SortFixed<T(!new)>(key: T -> seq<int>, s: seq<T>)
    requires Increasing(key, s)
    ensures Sort(key, s) == s
  {
    IncreasingDistinct(key, s);
    SortIncreasing(key, s);
    SameMembers(Sort(key, s), s);
    IncreasingUnique(key, Sort(key, s), s);
  }

  lemma SortedExactly<T(!new)>(key: T -> seq<int>, s: seq<T>)
    requires DistinctKeys(key, s)
    ensures Sort(key, s) == s <==> Increasing(key, s)
  {
    SortIncreasing(key, s);
    if Increasing(key, s) { SortFixed(key, s); }
  }

  lemma DistinctOneMore<T(!new)>(key: T -> seq<int>, s: seq<T>, x: T)
    requires DistinctKeys(key, s) && forall y | y in s :: key(y) != key(x)
    ensures DistinctKeys(key, s + [x])
  {
    var t := s + [x];
    forall i, j | 0 <= i < j < |t| ensures key(t[i]) != key(t[j]) {
      assert t[i] == s[i] && s[i] in s;
      if j < |s| {
        assert t[j] == s[j];
      }
    }
  }

  lemma SortOneMore<T>(key: T -> seq<int>, s: seq<T>, x: T)
    ensures Sort(key, s + [x]) == Insert(key, x, Sort(key, s))
  {
    assert (s + [x])[..|s|] == s;
  }

  /** Inserting a new key into the sorted form of a sequence sorts the longer sequence. */
  lemma InsertNext<T(!new)>(key: T -> seq<int>, s: seq<T>, sorted: seq<T>, x: T)
    requires DistinctKeys(key, s) && sorted == Sort(key, s) && forall y | y in sorted :: key(y) != key(x)
    ensures DistinctKeys(key, s + [x]) && Insert(key, x, sorted) == Sort(key, s + [x])
  {
    SameMembers(sorted, s);
    DistinctOneMore(key, s, x);
    SortOneMore(key, s, x);
  }

  lemma DistinctTail<T(!new)>(key: T -> seq<int>, s: seq<T>)
    requires s != [] && DistinctKeys(key, s)
    ensures DistinctKeys(key, s[1..])
  {
  }

  // ---- Sums and distinctness do not depend on the order ---------------------------

  function Total<T>(size: T -> nat, s: seq<T>): nat {
    if s == [] then 0 else size(s[0]) + Total(size, s[1..])
  }

  function Without<T>(s: seq<T>, i: nat): (r: seq<T>)
    requires i < |s|
    ensures multiset(r) == multiset(s) - multiset{s[i]}
  {
    assert s == s[..i] + [s[i]] + s[i + 1..];
    s[..i] + s[i + 1..]
  }

  lemma {:induction false} TotalWithout<T>(size: T -> nat, s: seq<T>, i: nat)
    requires i < |s|
    ensures Total(size, s) == size(s[i]) + Total(size, Without(s, i))
  {
    if i == 0 {
      assert Without(s, 0) == s[1..];
    } else {
      TotalWithout(size, s[1..], i - 1);
      assert Without(s, i)[1..] == Without(s[1..], i - 1);
    }
  }

  lemma {:induction false} TotalPermutation<T>(size: T -> nat, s: seq<T>, t: seq<T>)
    requires multiset(s) == multiset(t)
    ensures Total(size, s) == Total(size, t)
  {
    if s == [] {
      assert t == [] by { assert |multiset(t)| == 0; }
    } else {
      assert s[0] in multiset(t);
      var i :| 0 <= i < |t| && t[i] == s[0];
      assert Without(s, 0) == s[1..];
      TotalWithout(size, t, i);
      TotalPermutation(size, s[1..], Without(t, i));
    }
  }

  lemma {:induction false} SameTotal<T(!new)>(f: T -> nat, g: T -> nat, s: seq<T>)
    requires forall x | x in s :: f(x) == g(x)
    ensures Total(f, s) == Total(g, s)
  {
    if s != [] { SameTotal(f, g, s[1..]); }
  }

  lemma OtherPlace<T>(s: seq<T>, i: nat) returns (j: nat)
    requires i < |s| && s[i] in Without(s, i)
    ensures j < |s| && j != i && s[j] == s[i]
  {
    var k :| 0 <= k < |s| - 1 && Without(s, i)[k] == s[i];
    j := if k < i then k else k + 1;
  }

  lemma DistinctPermutes<T(!new)>(key: T -> seq<int>, s: seq<T>, t: seq<T>)
    requires DistinctKeys(key, s) && multiset(s) == multiset(t)
    ensures DistinctKeys(key, t)
  {
    SameMembers(s, t);
    forall i, j | 0 <= i < j < |t| ensures key(t[i]) != key(t[j]) {
      assert t[i] in s && t[j] in s;
      var a :| 0 <= a < |s| && s[a] == t[i];
      var b :| 0 <= b < |s| && s[b] == t[j];
      if key(t[i]) == key(t[j]) {
        assert a == b;
        assert Without(t, j)[i] == t[i];
        assert t[i] in multiset(Without(t, j)) && multiset(Without(t, j)) == multiset(Without(s, a));
        var c := OtherPlace(s, a);
        assert false;
      }
    }
  }
}
