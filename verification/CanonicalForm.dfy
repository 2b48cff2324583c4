/** The key order of RFC 8785, from outside: UTF-16 code units, what they decode to, and
    where they put characters beyond the basic plane. */
module CanonicalForm {
  import opened Canonical
  import opened CanonicalBytes
  import opened JsonText
  import opened Libraries
  import opened Ordering
  import opened Wrappers
  import Utf8

  // ---- Code units -----------------------------------------------------------------

  predicate High(n: int) {
    0xD800 <= n < 0xDC00
  }

  predicate Low(n: int) {
    0xDC00 <= n < 0xE000
  }

  /** The text of a sequence of code units: surrogates only in pairs. */
  function FromUnits(us: seq<int>): Option<string> {
    if us == [] then Some("")
    else if High(us[0]) && |us| >= 2 && Low(us[1]) then
      var rest :- FromUnits(us[2..]);
      Some([(0x10000 + (us[0] - 0xD800) * 0x400 + (us[1] - 0xDC00)) as char] + rest)
    else if 0 <= us[0] < 0xD800 || 0xE000 <= us[0] < 0x10000 then
      var rest :- FromUnits(us[1..]);
      Some([us[0] as char] + rest)
    else None
  }

  lemma {:induction false} UnitsAreShort(s: string)
    ensures forall u | u in Utf16(s) :: 0 <= u < 0x10000
  {
    if s != "" { UnitsAreShort(s[1..]); }
  }

  lemma FirstUnits(s: string)
    requires s != ""
    ensures s[0] as int < 0x10000 ==> Utf16(s) == [s[0] as int] + Utf16(s[1..])
    ensures s[0] as int >= 0x10000 ==>
              var n := s[0] as int - 0x10000;
              Utf16(s) == [0xD800 + n / 0x400, 0xDC00 + n % 0x400] + Utf16(s[1..])
  {
  }

  /** Decoding the units gives the text back. */
  lemma {:induction false} UnitsDecode(s: string)
    ensures FromUnits(Utf16(s)) == Some(s)
  {
    if s != "" {
      UnitsDecode(s[1..]);
      FirstUnits(s);
      var us, rest := Utf16(s), Utf16(s[1..]);
      assert s == [s[0]] + s[1..];
      if s[0] as int < 0x10000 {
        assert us[1..] == rest;
      } else {
        var n := s[0] as int - 0x10000;
        assert us[2..] == rest && n == n / 0x400 * 0x400 + n % 0x400;
      }
    }
  }

  /** A character beyond the basic plane comes before those from U+E000 on, although its code
      point is greater. */
  lemma SupplementaryFirst(c: char, s: string, d: char, t: string)
    requires c as int >= 0x10000 && 0xE000 <= d as int < 0x10000
    ensures Less(Utf16([c] + s), Utf16([d] + t)) && c > d
  {
    FirstUnits([c] + s);
    FirstUnits([d] + t);
  }

  /** Otherwise the first characters that differ decide by their code points. */
  lemma SamePlane(c: char, s: string, d: char, t: string)
    requires c < d && (d as int < 0x10000 || c as int < 0xD800)
    ensures Less(Utf16([c] + s), Utf16([d] + t))
  {
    FirstUnits([c] + s);
    FirstUnits([d] + t);
  }

  lemma CharUnits(c: char, s: string)
    ensures Utf16([c] + s) == Utf16([c]) + Utf16(s)
  {
    assert [c] == [c] + "" && Utf16("") == [];
    FirstUnits([c] + s);
    FirstUnits([c] + "");
    assert ([c] + s)[1..] == s && ([c] + "")[1..] == "";
  }

  /** A common start does not matter. */
  lemma {:induction false} CommonStart(p: string, s: string, t: string)
    ensures Less(Utf16(p + s), Utf16(p + t)) <==> Less(Utf16(s), Utf16(t))
  {
    if p == "" {
      assert p + s == s && p + t == t;
    } else {
      var c, rest := p[0], p[1..];
      CommonStart(rest, s, t);
      assert p + s == [c] + (rest + s) && p + t == [c] + (rest + t);
      CharUnits(c, rest + s);
      CharUnits(c, rest + t);
      LessAfter(Utf16([c]), Utf16(rest + s), Utf16(rest + t));
    }
  }

  lemma {:induction false} LessAfter(x: seq<int>, a: seq<int>, b: seq<int>)
    ensures Less(x + a, x + b) <==> Less(a, b)
  {
    if x == [] {
      assert x + a == a && x + b == b;
    } else {
      LessAfter(x[1..], a, b);
      assert (x + a)[1..] == x[1..] + a && (x + b)[1..] == x[1..] + b;
    }
  }

  // ---- The repository's own case --------------------------------------------------

  const Z := "z"
  const PRIVATE := "\U{E000}"
  const BEYOND := "\U{10000}"

  lemma OrderOfThree(order: KeyOrder, ks: set<string>, a: string, b: string, c: string)
    requires ks == {a, b, c} && Less(order.Key(a), order.Key(b)) && Less(order.Key(b), order.Key(c))
    ensures Ordered(order, ks) == [a, b, c]
  {
    LessTransitive(order.Key(a), order.Key(b), order.Key(c));
    LessIrreflexive(order.Key(a));
    LessIrreflexive(order.Key(b));
    var r := [a, b, c];
    OrderedIncreasing(order, ks);
    forall i, j | 0 <= i < j < |r| ensures Less(KeyOf(order)(r[i]), KeyOf(order)(r[j])) {
      assert order.Key(r[i]) == KeyOf(order)(r[i]) && order.Key(r[j]) == KeyOf(order)(r[j]);
    }
    IncreasingUnique(KeyOf(order), Ordered(order, ks), r);
  }

  lemma KeysOfThree()
    ensures Less(ByUnit.Key(Z), ByUnit.Key(BEYOND)) && Less(ByUnit.Key(BEYOND), ByUnit.Key(PRIVATE))
  {
    SamePlane('z', "", '\U{10000}', "");
    SupplementaryFirst('\U{10000}', "", '\U{E000}', "");
    assert ['z'] + "" == Z && ['\U{10000}'] + "" == BEYOND && ['\U{E000}'] + "" == PRIVATE;
  }

  lemma ThreeMembers(a: string, x: string, b: string, y: string, c: string, z: string,
                     ms: seq<Member>)
    requires |ms| == 3 && ms[0].key == a && ms[1].key == b && ms[2].key == c
    requires Print(ms[0].value) == x && Print(ms[1].value) == y && Print(ms[2].value) == z
    ensures Print(RObject(ms))
         == "{" + (Quote(a) + ":" + x + ("," + Quote(b) + ":" + y + ("," + Quote(c) + ":" + z + "}")))
  {
    var two, one := ms[1..], ms[2..];
    assert two[0] == ms[1] && one[0] == ms[2] && two[1..] == one && one[1..] == [];
    assert PrintMembers([], false) == "}";
    assert PrintMembers(one, false) == "," + Quote(c) + ":" + z + "}";
    assert PrintMembers(two, false) == "," + Quote(b) + ":" + y + PrintMembers(one, false);
    assert "" + Quote(a) == Quote(a);
    assert PrintMembers(ms, true) == "" + Quote(a) + ":" + x + PrintMembers(two, false);
  }

  lemma PlainQuote(c: char)
    requires c as int >= 0x20 && c != '"' && c != '\\'
    ensures Quote([c]) == ['"', c, '"']
  {
    assert [c][1..] == "" && Escape("") == "" && Escape([c]) == [c] + "";
  }

  function Case(): Value {
    Obj(map[PRIVATE := Int(2), BEYOND := Int(1), Z := Int(0)])
  }

  lemma CaseMembers() returns (ms: seq<Member>)
    ensures RawOf(ByUnit, Case()) == RObject(ms) && |ms| == 3
    ensures ms[0] == Member(Z, RInt(0)) && ms[1] == Member(BEYOND, RInt(1)) && ms[2] == Member(PRIVATE, RInt(2))
  {
    var v := Case();
    var ks := [Z, BEYOND, PRIVATE];
    assert v.fields.Keys == {Z, BEYOND, PRIVATE};
    KeysOfThree();
    OrderOfThree(ByUnit, v.fields.Keys, Z, BEYOND, PRIVATE);
    ms := RawMembers(ByUnit, v, ks);
    RawMembersPrefix(ByUnit, v, ks, 0);
    RawMembersPrefix(ByUnit, v, ks, 1);
    RawMembersPrefix(ByUnit, v, ks, 2);
  }

  lemma CaseLiteral(a: string, b: string, c: string)
    requires a == "\"z\"" && b == "\"\U{10000}\"" && c == "\"\U{E000}\""
    ensures "{" + (a + ":" + "0" + ("," + b + ":" + "1" + ("," + c + ":" + "2" + "}")))
         == "{\"z\":0,\"\U{10000}\":1,\"\U{E000}\":2}"
  {
  }

  lemma CaseText()
    ensures Print(RawOf(ByUnit, Case())) == "{\"z\":0,\"\U{10000}\":1,\"\U{E000}\":2}"
  {
    var ms := CaseMembers();
    assert Print(RInt(0)) == "0" && Print(RInt(1)) == "1" && Print(RInt(2)) == "2";
    ThreeMembers(Z, "0", BEYOND, "1", PRIVATE, "2", ms);
    PlainQuote('z');
    PlainQuote('\U{10000}');
    PlainQuote('\U{E000}');
    CaseLiteral(Quote(Z), Quote(BEYOND), Quote(PRIVATE));
  }

  lemma {:induction false} EncodedSize(s: string)
    ensures |Utf8.Encode(s)| <= 4 * |s|
  {
    if s != "" { EncodedSize(s[1..]); }
  }

  lemma CaseNormal(lib: Libraries)
    requires lib.nfc(Z) == Z && lib.nfc(PRIVATE) == PRIVATE && lib.nfc(BEYOND) == BEYOND
    ensures Normal(lib, Case(), 0) == Some(Case())
  {
    var v := Case();
    assert forall k | k in v.fields :: k == Z || k == PRIVATE || k == BEYOND;
    assert forall k | k in v.fields :: Normalize(lib, k) == Some(k);
    StaysAsItIs(lib, v, 0);
  }

  /** An object with the keys z, U+10000 and U+E000 is written in this order. */
  lemma RepositoryCase(lib: Libraries)
    requires lib.nfc(Z) == Z && lib.nfc(PRIVATE) == PRIVATE && lib.nfc(BEYOND) == BEYOND
    ensures Bytes(lib, Case()) == Some(Utf8.Encode("{\"z\":0,\"\U{10000}\":1,\"\U{E000}\":2}"))
  {
    var v := Case();
    CaseText();
    CaseNormal(lib);
    EncodedSize(Print(RawOf(ByUnit, v)));
    SameWidth(v);
    BytesMeaning(lib, v);
  }
}
