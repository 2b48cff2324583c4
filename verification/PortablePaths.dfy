/** Portable archive paths: segments, safety and case folding. */
module PortablePaths {
  import opened Libraries
  import Text
  import Utf8

  // ---- Segments -------------------------------------------------------------------

  function Split(s: string): (parts: seq<string>)
    ensures parts != []
    ensures forall part | part in parts :: '/' !in part
  {
    Text.SplitOn('/', s)
  }

  /** The parts, each followed by a separator. */
  function Head(parts: seq<string>): string {
    if parts == [] then "" else parts[0] + "/" + Head(parts[1..])
  }

  lemma {:induction false} SplitGlue(a: string, t: string)
    requires '/' !in a
    ensures Split(a + t) == [a + Split(t)[0]] + Split(t)[1..]
  {
    if a == "" {
      assert a + t == t && a + Split(t)[0] == Split(t)[0];
    } else {
      SplitGlue(a[1..], t);
      assert (a + t)[1..] == a[1..] + t;
      assert a + Split(t)[0] == [a[0]] + (a[1..] + Split(t)[0]);
    }
  }

  lemma {:induction false} SplitSlash(s: string, t: string)
    ensures Split(s + "/" + t) == Split(s) + Split(t)
  {
    var whole := s + "/" + t;
    if s == "" {
      assert whole[0] == '/' && whole[1..] == t;
    } else {
      SplitSlash(s[1..], t);
      assert whole[0] == s[0] && whole[1..] == s[1..] + "/" + t;
      var left, right := Split(s[1..]), Split(t);
      assert (left + right)[0] == left[0] && (left + right)[1..] == left[1..] + right;
    }
  }

  lemma {:induction false} HeadOfSplit(s: string, k: nat)
    requires k < |Split(s)|
    ensures Head(Split(s)[..k]) <= s
  {
    if k > 0 {
      var parts := Split(s);
      if s[0] == '/' {
        HeadOfSplit(s[1..], k - 1);
        assert parts[..k][1..] == Split(s[1..])[..k - 1];
      } else {
        var rest := Split(s[1..]);
        HeadOfSplit(s[1..], k);
        assert parts[..k][1..] == rest[..k][1..];
        assert Head(parts[..k]) == [s[0]] + Head(rest[..k]);
      }
    }
  }

  lemma {:induction false} SplitOfHead(parts: seq<string>, s: string)
    requires forall part | part in parts :: '/' !in part
    requires Head(parts) <= s
    ensures |Split(s)| > |parts| && Split(s)[..|parts|] == parts
  {
    if parts != [] {
      var h := Head(parts[1..]);
      var t := s[|parts[0]| + 1..];
      assert s == parts[0] + "/" + t by {
        assert Head(parts) == parts[0] + "/" + h;
        assert s[..|parts[0]| + 1] == Head(parts)[..|parts[0]| + 1] == parts[0] + "/";
      }
      assert h <= t;
      SplitOfHead(parts[1..], t);
      SplitSlash(parts[0], t);
      SplitGlue(parts[0], "");
      assert parts[0] + "" == parts[0];
      assert parts == [parts[0]] + parts[1..];
    }
  }

  // ---- Safety ---------------------------------------------------------------------

  predicate Control(c: char) {
    c as int < 0x20 || 0x7F <= c as int < 0xA0
  }

  function AsciiUpper(c: char): char {
    if 'a' <= c <= 'z' then (c as int - 32) as char else c
  }

  /** The part before its first dot, in ASCII upper case. */
  function Stem(part: string): string {
    if part == "" || part[0] == '.' then "" else [AsciiUpper(part[0])] + Stem(part[1..])
  }

  const DEVICES: set<string> := {"CON", "PRN", "AUX", "NUL", "CONIN$", "CONOUT$"}
  const PORTS: set<string> := {"COM", "LPT"}
  const PORT_NUMBERS: set<char> :=
    {'1', '2', '3', '4', '5', '6', '7', '8', '9', '\U{B9}', '\U{B2}', '\U{B3}'}

  predicate ReservedDevice(part: string) {
    var stem := Stem(part);
    stem in DEVICES || (|stem| == 4 && stem[..3] in PORTS && stem[3] in PORT_NUMBERS)
  }

  const FORBIDDEN: set<char> := {'\\', ':', '<', '>', '"', '|', '?', '*'}

  predicate SafePart(part: string) {
    && part != "" && part != "." && part != ".."
    && |Utf8.Encode(part)| <= 255
    && part[|part| - 1] != '.' && part[|part| - 1] != ' '
    && !ReservedDevice(part)
  }

  predicate SafePath(lib: Libraries, path: string) {
    && path != ""
    && |Utf8.Encode(path)| <= 1024
    && path[0] != '/' && path[0] != '~'
    && (forall c | c in path :: c !in FORBIDDEN)
    && lib.nfc(path) == path
    && (forall c | c in path :: !Control(c))
    && (forall part | part in Split(path) :: SafePart(part))
  }

  // ---- Case folding ---------------------------------------------------------------

  function Fold(lib: Libraries, s: string): string {
    if s == "" then "" else lib.fold(s[0]) + Fold(lib, s[1..])
  }

  function FoldParts(lib: Libraries, parts: seq<string>): (r: seq<string>)
    ensures |r| == |parts|
    ensures forall i | 0 <= i < |parts| :: r[i] == Fold(lib, parts[i])
  {
    seq(|parts|, i requires 0 <= i < |parts| => Fold(lib, parts[i]))
  }

  function Codes(s: string): (r: seq<int>)
    ensures |r| == |s| && forall i | 0 <= i < |s| :: r[i] == s[i] as int
  {
    seq(|s|, i requires 0 <= i < |s| => s[i] as int)
  }

  lemma CodesInjective(s: string, t: string)
    requires Codes(s) == Codes(t)
    ensures s == t
  {
    forall i | 0 <= i < |s| ensures s[i] == t[i] {
      assert Codes(s)[i] == Codes(t)[i];
    }
  }

  lemma CodesPrefix(s: string, t: string)
    ensures Codes(s) <= Codes(t) <==> s <= t
  {
    if Codes(s) <= Codes(t) {
      forall i | 0 <= i < |s| ensures s[i] == t[i] {
        assert Codes(s)[i] == Codes(t)[i];
      }
    }
  }

  lemma {:induction false} FoldConcat(lib: Libraries, s: string, t: string)
    ensures Fold(lib, s + t) == Fold(lib, s) + Fold(lib, t)
  {
    if s == "" {
      assert s + t == t;
    } else {
      FoldConcat(lib, s[1..], t);
      assert (s + t)[1..] == s[1..] + t;
    }
  }

  /** Folding works part by part. */
  lemma {:induction false} FoldSplit(lib: Libraries, s: string)
    requires FoldLaw(lib)
    ensures Split(Fold(lib, s)) == FoldParts(lib, Split(s))
  {
    if s != "" {
      FoldSplit(lib, s[1..]);
      var rest := Split(s[1..]);
      if s[0] == '/' {
        assert Fold(lib, s) == "/" + Fold(lib, s[1..]);
      } else {
        SplitGlue(lib.fold(s[0]), Fold(lib, s[1..]));
        FoldConcat(lib, [s[0]], rest[0]);
        assert Fold(lib, [s[0]]) == lib.fold(s[0]) by { assert [s[0]][1..] == ""; }
      }
    }
  }

  lemma {:induction false} SplitInjective(s: string, t: string)
    requires Split(s) == Split(t)
    ensures s == t
  {
    HeadOfSplit(s, |Split(s)| - 1);
    SplitJoin(s);
    SplitJoin(t);
  }

  lemma {:induction false} SplitJoin(s: string)
    ensures var parts := Split(s); s == Head(parts[..|parts| - 1]) + parts[|parts| - 1]
  {
    if s != "" {
      SplitJoin(s[1..]);
      var rest, parts := Split(s[1..]), Split(s);
      if s[0] == '/' {
        assert parts[..|parts| - 1][1..] == rest[..|rest| - 1];
      } else if |rest| > 1 {
        assert parts[..|parts| - 1][1..] == rest[..|rest| - 1][1..];
        assert Head(parts[..|parts| - 1]) == [s[0]] + Head(rest[..|rest| - 1]);
      }
    }
  }

  /** Two paths fold alike exactly when their parts do. */
  lemma FoldEqualParts(lib: Libraries, p: string, q: string)
    requires FoldLaw(lib)
    ensures Fold(lib, p) == Fold(lib, q) <==>
            FoldParts(lib, Split(p)) == FoldParts(lib, Split(q))
  {
    FoldSplit(lib, p);
    FoldSplit(lib, q);
    if FoldParts(lib, Split(p)) == FoldParts(lib, Split(q)) {
      SplitInjective(Fold(lib, p), Fold(lib, q));
    }
  }
}
