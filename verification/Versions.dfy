/** Release versions: three numbers, and a preview number that sorts below the release. */
module Versions {
  import opened Ordering
  import opened Wrappers
  import Decimal
  import Text

  const U64_MAX := 0xFFFF_FFFF_FFFF_FFFF
  const PREVIEW := "-preview."

  datatype Version = Version(major: nat, minor: nat, patch: nat, preview: nat)

  function Key(v: Version): seq<int> {
    [v.major, v.minor, v.patch, v.preview]
  }

  predicate AtMost(v: Version, w: Version) {
    v == w || Less(Key(v), Key(w))
  }

  /** Unsigned 64-bit parsing: an optional plus sign, then digits, without overflow. */
  function ParseNumber(s: string): (r: Option<nat>)
    ensures r.Some? ==> r.value <= U64_MAX
  {
    var digits := if s != "" && s[0] == '+' then s[1..] else s;
    if digits == "" || !(forall c | c in digits :: Decimal.IsDigit(c)) || Decimal.Number(digits) > U64_MAX
    then None
    else Some(Decimal.Number(digits))
  }

  function SplitOnce(s: string, sep: string): Option<(string, string)> {
    if sep <= s then Some(("", s[|sep|..]))
    else if s == "" then None
    else
      var (left, right) :- SplitOnce(s[1..], sep);
      Some(([s[0]] + left, right))
  }

  function Parse(value: string): (r: Option<Version>)
    ensures r.Some? ==> 0 < r.value.preview <= U64_MAX
  {
    var split := SplitOnce(value, PREVIEW);
    var core := if split.Some? then split.value.0 else value;
    var preview :=
      if split.None? then U64_MAX
      else
        var n := ParseNumber(split.value.1);
        if n.Some? then n.value else 0;
    var parts := Text.SplitOn('.', core);
    if |parts| != 3 then None
    else
      var major :- ParseNumber(parts[0]);
      var minor :- ParseNumber(parts[1]);
      var patch :- ParseNumber(parts[2]);
      if preview == 0 then None else Some(Version(major, minor, patch, preview))
  }

  // ---- Proofs ---------------------------------------------------------------------

  lemma {:induction false} SplitAfter(core: string, sep: string, rest: string)
    requires sep != "" && sep[0] !in core
    ensures SplitOnce(core + sep + rest, sep) == Some((core, rest))
  {
    var s := core + sep + rest;
    if core == "" {
      assert s == sep + rest;
    } else {
      assert s[0] == core[0] != sep[0];
      SplitAfter(core[1..], sep, rest);
      assert s[1..] == core[1..] + sep + rest && core == [core[0]] + core[1..];
    }
  }

  lemma {:induction false} NoSplit(s: string, sep: string)
    requires sep != "" && sep[0] !in s
    ensures SplitOnce(s, sep).None?
  {
    if s != "" {
      NoSplit(s[1..], sep);
    } else {
      assert |sep| > 0;
    }
  }

  lemma ThreeParts(a: string, b: string, c: string)
    requires '.' !in a && '.' !in b && '.' !in c
    ensures Text.SplitOn('.', a + "." + b + "." + c) == [a, b, c]
  {
    var bc := b + "." + c;
    assert a + "." + b + "." + c == a + "." + bc;
    Text.SplitAfter('.', a, bc);
    Text.SplitAfter('.', b, c);
    Text.SplitWhole('.', c);
  }

  // ---- Which strings are versions -------------------------------------------------

  /** Digits, perhaps after a plus sign, of a number below 2 to the 64th. */
  lemma NumberExactly(s: string, n: nat)
    ensures ParseNumber(s) == Some(n) <==>
            exists digits ::
              && digits != "" && (forall c | c in digits :: '0' <= c <= '9')
              && (s == digits || s == "+" + digits)
              && Decimal.Number(digits) == n && n <= 18_446_744_073_709_551_615
  {
    if ParseNumber(s) == Some(n) {
      var digits := if s[0] == '+' then s[1..] else s;
      assert s == digits || s == "+" + digits;
      assert forall c | c in digits :: Decimal.IsDigit(c);
    }
    if digits :| && digits != "" && (forall c | c in digits :: '0' <= c <= '9')
                 && (s == digits || s == "+" + digits)
                 && Decimal.Number(digits) == n && n <= 18_446_744_073_709_551_615
    {
      assert digits[0] in digits && forall c | c in digits :: Decimal.IsDigit(c);
      assert s == "+" + digits ==> s[0] == '+' && s[1..] == digits;
    }
  }

  predicate Numbers(a: string, b: string, c: string, v: Version) {
    ParseNumber(a) == Some(v.major) && ParseNumber(b) == Some(v.minor) && ParseNumber(c) == Some(v.patch)
  }

  /** Nothing for a release, which ranks above all its previews. */
  predicate Previewed(preview: string, v: Version) {
    if preview == "" then v.preview == U64_MAX
    else PREVIEW <= preview && ParseNumber(preview[|PREVIEW|..]) == Some(v.preview) && v.preview > 0
  }

  /** The string is three numbers set apart by dots, and possibly a preview number. */
  ghost predicate Denotes(value: string, v: Version) {
    exists a, b, c, preview ::
      Numbers(a, b, c, v) && Previewed(preview, v) && value == a + "." + b + "." + c + preview
  }

  lemma ParseOfParts(value: string, core: string, preview: nat, v: Version)
    requires 0 < preview == v.preview
    requires && (SplitOnce(value, PREVIEW).None? ==> core == value && preview == U64_MAX)
             && (SplitOnce(value, PREVIEW).Some? ==>
                   var (left, right) := SplitOnce(value, PREVIEW).value;
                   core == left && ParseNumber(right) == Some(preview))
    requires var parts := Text.SplitOn('.', core);
             |parts| == 3 && Numbers(parts[0], parts[1], parts[2], v)
    ensures Parse(value) == Some(v)
  {
  }

  lemma NumberPlain(s: string)
    requires ParseNumber(s).Some?
    ensures '.' !in s && '-' !in s
  {
    var digits := if s[0] == '+' then s[1..] else s;
    assert s == digits || s == ['+'] + digits;
    assert forall c | c in digits :: Decimal.IsDigit(c);
  }

  lemma {:induction false} SplitOnceParts(s: string, sep: string)
    requires SplitOnce(s, sep).Some?
    ensures s == SplitOnce(s, sep).value.0 + sep + SplitOnce(s, sep).value.1
  {
    if sep <= s {
      var right := s[|sep|..];
      assert s[..|sep|] == sep && s == sep + right && "" + sep == sep;
    } else {
      SplitOnceParts(s[1..], sep);
      var (left, right) := SplitOnce(s[1..], sep).value;
      OneMoreChar(s, s[0], s[1..], left, sep, right);
    }
  }

  lemma OneMoreChar(s: string, c: char, rest: string, left: string, sep: string, right: string)
    requires s == [c] + rest && rest == left + sep + right
    ensures s == [c] + left + sep + right
  {
  }

  lemma NumbersParse(value: string, a: string, b: string, c: string, preview: string, v: Version)
    requires Numbers(a, b, c, v) && Previewed(preview, v) && value == a + "." + b + "." + c + preview
    ensures Parse(value) == Some(v)
  {
    var core := a + "." + b + "." + c;
    NumberPlain(a);
    NumberPlain(b);
    NumberPlain(c);
    ThreeParts(a, b, c);
    if preview == "" {
      assert value == core;
      NoSplit(core, PREVIEW);
    } else {
      var tail := preview[|PREVIEW|..];
      assert preview == PREVIEW + tail && value == core + PREVIEW + tail;
      SplitAfter(core, PREVIEW, tail);
    }
    ParseOfParts(value, core, v.preview, v);
  }

  lemma CoreDenotes(core: string, a: string, b: string, c: string, preview: string, v: Version)
    requires Text.SplitOn('.', core) == [a, b, c] && Numbers(a, b, c, v) && Previewed(preview, v)
    ensures Denotes(core + preview, v)
  {
    Text.ThreeJoined('.', core, a, b, c);
    assert core + preview == a + "." + b + "." + c + preview;
  }

  lemma PartsOfParse(value: string, v: Version) returns (core: string, preview: string)
    requires Parse(value) == Some(v)
    ensures value == core + preview && Previewed(preview, v)
    ensures var parts := Text.SplitOn('.', core); |parts| == 3 && Numbers(parts[0], parts[1], parts[2], v)
  {
    var split := SplitOnce(value, PREVIEW);
    if split.None? {
      core, preview := value, "";
    } else {
      core, preview := split.value.0, PREVIEW + split.value.1;
      SplitOnceParts(value, PREVIEW);
      assert preview[|PREVIEW|..] == split.value.1;
    }
  }

  /** A string is accepted, with that result, exactly when it denotes the version. */
  lemma ParseExactly(value: string, v: Version)
    ensures Parse(value) == Some(v) <==> Denotes(value, v)
  {
    if a, b, c, preview :|
      Numbers(a, b, c, v) && Previewed(preview, v) && value == a + "." + b + "." + c + preview
    {
      NumbersParse(value, a, b, c, preview, v);
    }
    if Parse(value) == Some(v) {
      var core, preview := PartsOfParse(value, v);
      var parts := Text.SplitOn('.', core);
      CoreDenotes(core, parts[0], parts[1], parts[2], preview, v);
    }
  }

  lemma AtMostTransitive(u: Version, v: Version, w: Version)
    requires AtMost(u, v) && AtMost(v, w)
    ensures AtMost(u, w)
  {
    if u != v && v != w { LessTransitive(Key(u), Key(v), Key(w)); }
  }

  lemma AtMostTotal(v: Version, w: Version)
    ensures AtMost(v, w) || AtMost(w, v)
    ensures AtMost(v, w) && AtMost(w, v) ==> v == w
  {
    LessTotal(Key(v), Key(w));
    if Key(v) == Key(w) {
      assert Key(v)[0] == Key(w)[0] && Key(v)[1] == Key(w)[1];
      assert Key(v)[2] == Key(w)[2] && Key(v)[3] == Key(w)[3];
    }
    if Less(Key(v), Key(w)) && Less(Key(w), Key(v)) {
      LessTransitive(Key(v), Key(w), Key(v));
      LessIrreflexive(Key(v));
    }
  }

  // ---- What the order is ----------------------------------------------------------

  /** Major first, then minor, then patch, then preview. */
  predicate NoLater(v: Version, w: Version) {
    || v.major < w.major
    || (v.major == w.major &&
        (|| v.minor < w.minor
         || (v.minor == w.minor &&
             (|| v.patch < w.patch
              || (v.patch == w.patch && v.preview <= w.preview)))))
  }

  lemma LessOneMore(x: int, s: seq<int>, y: int, t: seq<int>)
    ensures Less([x] + s, [y] + t) <==> x < y || (x == y && Less(s, t))
  {
    assert ([x] + s)[1..] == s && ([y] + t)[1..] == t;
  }

  lemma AtMostExactly(v: Version, w: Version)
    ensures AtMost(v, w) <==> NoLater(v, w)
  {
    assert Key(v) == [v.major] + ([v.minor] + ([v.patch] + ([v.preview] + [])));
    assert Key(w) == [w.major] + ([w.minor] + ([w.patch] + ([w.preview] + [])));
    LessOneMore(v.major, [v.minor] + ([v.patch] + ([v.preview] + [])),
                w.major, [w.minor] + ([w.patch] + ([w.preview] + [])));
    LessOneMore(v.minor, [v.patch] + ([v.preview] + []), w.minor, [w.patch] + ([w.preview] + []));
    LessOneMore(v.patch, [v.preview] + [], w.patch, [w.preview] + []);
    LessOneMore(v.preview, [], w.preview, []);
  }

  /** Every preview of a release comes before it. */
  lemma PreviewBeforeRelease(value: string, preview: string, v: Version, w: Version)
    requires Parse(value) == Some(v) && v.preview == U64_MAX
    requires Parse(value + PREVIEW + preview) == Some(w) && '-' !in value
    ensures AtMost(w, v)
  {
    SplitAfter(value, PREVIEW, preview);
    NoSplit(value, PREVIEW);
    AtMostExactly(w, v);
  }
}
