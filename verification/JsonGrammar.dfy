/** The grammar of JSON texts (RFC 8259 without fractions and exponents), as predicates on
    texts, and the theorem that the reader accepts exactly its texts. */
module JsonGrammar {
  import opened JsonLaws
  import opened JsonText
  import opened Wrappers
  import Decimal

  // ---- Grammar --------------------------------------------------------------------

  predicate IsHexDigit(c: char, d: nat) {
    d < 16 && (c == "0123456789abcdef"[d] || c == "0123456789ABCDEF"[d])
  }

  predicate HexText(s: string, n: nat) {
    && n < 0x10000 && |s| == 4
    && IsHexDigit(s[0], n / 4096) && IsHexDigit(s[1], n / 256 % 16)
    && IsHexDigit(s[2], n / 16 % 16) && IsHexDigit(s[3], n % 16)
  }

  /** A character as itself. */
  predicate PlainText(s: string, c: char) {
    s == [c] && c as int >= 0x20 && c != '"' && c != '\\'
  }

  predicate ShortEscape(s: string, c: char) {
    && |s| == 2 && s[0] == '\\'
    && match s[1]
       case 'b' => c as int == 0x08
       case 't' => c as int == 0x09
       case 'n' => c as int == 0x0A
       case 'f' => c as int == 0x0C
       case 'r' => c as int == 0x0D
       case x => c == x && x in {'"', '\\', '/'}
  }

  predicate UnitEscape(s: string, c: char) {
    |s| == 6 && s[..2] == "\\u" && HexText(s[2..], c as int)
  }

  predicate PairEscape(s: string, c: char) {
    var n := c as int - 0x10000;
    && n >= 0 && |s| == 12 && s[..2] == "\\u" && s[6..8] == "\\u"
    && HexText(s[2..6], 0xD800 + n / 0x400) && HexText(s[8..], 0xDC00 + n % 0x400)
  }

  predicate CharText(s: string, c: char) {
    PlainText(s, c) || ShortEscape(s, c) || UnitEscape(s, c) || PairEscape(s, c)
  }

  ghost predicate CharsText(s: string, text: string)
    decreases |text|
  {
    if text == "" then s == ""
    else exists x, y :: s == x + y && CharText(x, text[0]) && CharsText(y, text[1..])
  }

  ghost predicate StringText(s: string, text: string) {
    exists x :: s == "\"" + x + "\"" && CharsText(x, text)
  }

  predicate NatText(s: string, n: nat) {
    && s != "" && (forall c | c in s :: Decimal.IsDigit(c))
    && (s[0] == '0' ==> |s| == 1) && Decimal.Number(s) == n
  }

  predicate IntText(s: string, n: int) {
    (n >= 0 && NatText(s, n)) || (n <= 0 && s != "" && s[0] == '-' && NatText(s[1..], -n))
  }

  /** One character with space around it. */
  ghost predicate Around(w: string, c: char) {
    exists a, b :: w == a + ([c] + b) && Spaces(a) && Spaces(b)
  }

  ghost predicate Before(w: string, first: bool) {
    if first then Spaces(w) else Around(w, ',')
  }

  ghost predicate ValueText(s: string, r: Raw)
    decreases r, 1
  {
    match r
    case RNull => s == "null"
    case RBool(flag) => s == if flag then "true" else "false"
    case RInt(n) => IntText(s, n)
    case RString(text) => StringText(s, text)
    case RArray(items) => s != "" && s[0] == '[' && ItemsText(s[1..], items, true)
    case RObject(members) => s != "" && s[0] == '{' && MembersText(s[1..], members, true)
  }

  ghost predicate ItemsText(s: string, items: seq<Raw>, first: bool)
    decreases items, 0
  {
    if items == [] then exists w :: s == w + "]" && Spaces(w)
    else
      exists w, x, y ::
        s == w + (x + y) && Before(w, first) && ValueText(x, items[0]) && ItemsText(y, items[1..], false)
  }

  ghost predicate MemberText(s: string, m: Member)
    decreases m, 0
  {
    exists q, w, x :: s == q + (w + x) && StringText(q, m.key) && Around(w, ':') && ValueText(x, m.value)
  }

  ghost predicate MembersText(s: string, members: seq<Member>, first: bool)
    decreases members, 0
  {
    if members == [] then exists w :: s == w + "}" && Spaces(w)
    else
      exists w, x, y ::
        s == w + (x + y) && Before(w, first) && MemberText(x, members[0]) && MembersText(y, members[1..], false)
  }

  ghost predicate Json(s: string, r: Raw) {
    exists w, x, u :: s == w + (x + u) && Spaces(w) && ValueText(x, r) && Spaces(u)
  }

  // ---- Characters -----------------------------------------------------------------

  /** What `ReadChars` reads first. */
  function ReadChar(s: string): Option<(char, string)>
    requires s != ""
  {
    if s[0] == '\\' then ReadEscape(s[1..]) else Some((s[0], s[1..]))
  }

  lemma HexDigits(c: char, d: nat)
    ensures HexValue(c) == Some(d) <==> IsHexDigit(c, d)
  {
  }

  lemma FourNibbles(a: nat, b: nat, c: nat, d: nat, n: nat)
    requires a < 16 && b < 16 && c < 16 && d < 16 && n == a * 4096 + b * 256 + c * 16 + d
    ensures n / 4096 == a && n / 256 % 16 == b && n / 16 % 16 == c && n % 16 == d
  {
    assert n / 16 == a * 256 + b * 16 + c;
    assert n / 256 == a * 16 + b;
  }

  lemma HexRead(s: string, n: nat)
    requires |s| >= 4 && HexText(s[..4], n)
    ensures ReadHex(s) == Some(n)
  {
    var a, b, c, d := n / 4096, n / 256 % 16, n / 16 % 16, n % 16;
    HexDigits(s[0], a);
    HexDigits(s[1], b);
    HexDigits(s[2], c);
    HexDigits(s[3], d);
    Nibbles(n);
    FourDigits(s, a, b, c, d);
  }

  lemma HexParts(s: string) returns (a: nat, b: nat, c: nat, d: nat)
    requires ReadHex(s).Some?
    ensures a < 16 && b < 16 && c < 16 && d < 16 && ReadHex(s).value == a * 4096 + b * 256 + c * 16 + d
    ensures HexValue(s[0]) == Some(a) && HexValue(s[1]) == Some(b)
    ensures HexValue(s[2]) == Some(c) && HexValue(s[3]) == Some(d)
  {
    a, b, c, d := HexValue(s[0]).value, HexValue(s[1]).value, HexValue(s[2]).value, HexValue(s[3]).value;
  }

  lemma HexSound(s: string)
    requires ReadHex(s).Some?
    ensures HexText(s[..4], ReadHex(s).value)
  {
    var a, b, c, d := HexParts(s);
    HexDigits(s[0], a);
    HexDigits(s[1], b);
    HexDigits(s[2], c);
    HexDigits(s[3], d);
    FourNibbles(a, b, c, d, ReadHex(s).value);
  }

  lemma EscapeRead(u: string)
    ensures ReadChar("\\u" + u) == ReadUnicode(u)
  {
    var s := "\\u" + u;
    assert s[0] == '\\' && s[1..][0] == 'u' && s[1..][1..] == u;
  }

  lemma UnitRead(x: string, c: char, rest: string)
    requires UnitEscape(x, c)
    ensures ReadChar(x + rest) == Some((c, rest))
  {
    var u := x[2..] + rest;
    assert x + rest == "\\u" + u;
    EscapeRead(u);
    assert u[..4] == x[2..] && u[4..] == rest;
    HexRead(u, c as int);
  }

  lemma PairText(x: string) returns (h: string, l: string)
    requires |x| == 12 && x[..2] == "\\u" && x[6..8] == "\\u"
    ensures h == x[2..6] && l == x[8..] && x == "\\u" + (h + ("\\u" + l))
  {
    h, l := x[2..6], x[8..];
  }

  lemma HalvesRead(h: string, l: string, high: nat, low: nat, rest: string)
    requires 0xD800 <= high < 0xDC00 && 0xDC00 <= low < 0xE000
    requires HexText(h, high) && HexText(l, low)
    ensures ReadUnicode(h + ("\\u" + (l + rest)))
         == Some(((0x10000 + (high - 0xD800) * 0x400 + (low - 0xDC00)) as char, rest))
  {
    var second := l + rest;
    var u := h + ("\\u" + second);
    assert u[..4] == h && u[4..6] == "\\u" && u[6..] == second && second[..4] == l;
    assert u[10..] == second[4..] == rest;
    HexRead(u, high);
    HexRead(second, low);
    PairRead(u, high, low);
  }

  lemma PairedRead(x: string, c: char, rest: string)
    requires PairEscape(x, c)
    ensures ReadChar(x + rest) == Some((c, rest))
  {
    var n := c as int - 0x10000;
    var h, l := PairText(x);
    HalvesRead(h, l, 0xD800 + n / 0x400, 0xDC00 + n % 0x400, rest);
    assert n == n / 0x400 * 0x400 + n % 0x400;
    EscapeRead(h + ("\\u" + (l + rest)));
    PairRest(h, l, rest);
  }

  lemma PairRest(h: string, l: string, rest: string)
    ensures "\\u" + (h + ("\\u" + l)) + rest == "\\u" + (h + ("\\u" + (l + rest)))
  {
  }

  lemma ShortRead(x: string, c: char, rest: string)
    requires ShortEscape(x, c)
    ensures ReadChar(x + rest) == Some((c, rest))
  {
    var s := x + rest;
    assert s[0] == x[0] && s[1..][0] == x[1] && s[1..][1..] == rest;
  }

  lemma CharRead(x: string, c: char, rest: string)
    requires CharText(x, c)
    ensures var s := x + rest; s[0] as int >= 0x20 && s[0] != '"' && ReadChar(s) == Some((c, rest))
  {
    if PlainText(x, c) {
      assert (x + rest)[1..] == rest;
    } else if ShortEscape(x, c) {
      ShortRead(x, c, rest);
    } else if UnitEscape(x, c) {
      assert x[0] == x[..2][0];
      UnitRead(x, c, rest);
    } else {
      assert x[0] == x[..2][0];
      PairedRead(x, c, rest);
    }
  }

  lemma CharStep(s: string, c: char, after: string, text: string, rest: string)
    requires s != "" && s[0] as int >= 0x20 && s[0] != '"' && ReadChar(s) == Some((c, after))
    requires |after| < |s| && ReadChars(after) == Some((text, rest))
    ensures ReadChars(s) == Some(([c] + text, rest))
  {
  }

  lemma CharsJoined(a: string, b: string, rest: string)
    ensures a + b + "\"" + rest == a + (b + "\"" + rest)
  {
  }

  lemma {:induction false} CharsRead(x: string, text: string, rest: string)
    requires CharsText(x, text)
    ensures ReadChars(x + "\"" + rest) == Some((text, rest))
    decreases |text|
  {
    if text == "" {
      assert x + "\"" + rest == "\"" + rest;
    } else {
      var a, b :| x == a + b && CharText(a, text[0]) && CharsText(b, text[1..]);
      var after := b + "\"" + rest;
      CharRead(a, text[0], after);
      CharsRead(b, text[1..], rest);
      CharStep(a + after, text[0], after, text[1..], rest);
      CharsJoined(a, b, rest);
      assert text == [text[0]] + text[1..];
    }
  }

  lemma EscapeSound(s: string)
    requires s != "" && ReadEscape(s).Some? && s[0] != 'u'
    ensures ShortEscape(['\\', s[0]], ReadEscape(s).value.0) && ReadEscape(s).value.1 == s[1..]
  {
  }

  lemma Recombine(high: nat, low: nat, n: nat)
    requires 0xD800 <= high < 0xDC00 && 0xDC00 <= low < 0xE000
    requires n == (high - 0xD800) * 0x400 + (low - 0xDC00)
    ensures 0xD800 + n / 0x400 == high && 0xDC00 + n % 0x400 == low
  {
  }

  /** Either one unit, or a pair of surrogates. */
  lemma UnicodeCases(s: string)
    requires ReadUnicode(s).Some?
    ensures var (c, rest) := ReadUnicode(s).value;
            || (ReadHex(s) == Some(c as int) && rest == s[4..])
            || (&& |s| >= 10 && s[4..6] == "\\u" && rest == s[10..]
                && ReadHex(s).Some? && ReadHex(s[6..]).Some?
                && var high, low := ReadHex(s).value, ReadHex(s[6..]).value;
                   && 0xD800 <= high < 0xDC00 && 0xDC00 <= low < 0xE000
                   && c as int == 0x10000 + (high - 0xD800) * 0x400 + (low - 0xDC00))
  {
  }

  lemma PairSound(s: string, c: char, high: nat, low: nat)
    requires |s| >= 10 && s[4..6] == "\\u" && HexText(s[..4], high) && HexText(s[6..10], low)
    requires 0xD800 <= high < 0xDC00 && 0xDC00 <= low < 0xE000
    requires c as int == 0x10000 + (high - 0xD800) * 0x400 + (low - 0xDC00)
    ensures PairEscape("\\u" + s[..10], c)
  {
    var e := "\\u" + s[..10];
    Recombine(high, low, c as int - 0x10000);
    assert e[..2] == "\\u" && e[2..6] == s[..4] && e[6..8] == s[4..6] && e[8..] == s[6..10];
  }

  lemma UnitSound(s: string, c: char)
    requires |s| >= 4 && HexText(s[..4], c as int)
    ensures UnitEscape("\\u" + s[..4], c)
  {
    var e := "\\u" + s[..4];
    assert e[..2] == "\\u" && e[2..] == s[..4];
  }

  lemma UnicodeSound(s: string) returns (x: string)
    requires ReadUnicode(s).Some?
    ensures s == x + ReadUnicode(s).value.1
    ensures UnitEscape("\\u" + x, ReadUnicode(s).value.0) || PairEscape("\\u" + x, ReadUnicode(s).value.0)
  {
    var (c, rest) := ReadUnicode(s).value;
    UnicodeCases(s);
    HexSound(s);
    if ReadHex(s) == Some(c as int) && rest == s[4..] {
      UnitSound(s, c);
      x := s[..4];
    } else {
      HexSound(s[6..]);
      assert s[6..][..4] == s[6..10];
      PairSound(s, c, ReadHex(s).value, ReadHex(s[6..]).value);
      x := s[..10];
    }
  }

  lemma CharSound(s: string) returns (x: string)
    requires s != "" && s[0] as int >= 0x20 && s[0] != '"' && ReadChar(s).Some?
    ensures s == x + ReadChar(s).value.1 && CharText(x, ReadChar(s).value.0)
  {
    if s[0] != '\\' {
      x := [s[0]];
    } else if s[1] != 'u' {
      EscapeSound(s[1..]);
      x := ['\\', s[1]];
    } else {
      var u := UnicodeSound(s[1..][1..]);
      x := "\\u" + u;
      assert s == "\\u" + s[1..][1..];
    }
  }

  lemma {:induction false} CharsSound(s: string) returns (x: string)
    requires ReadChars(s).Some?
    ensures s == x + "\"" + ReadChars(s).value.1 && CharsText(x, ReadChars(s).value.0)
    decreases |s|
  {
    if s[0] == '"' {
      x := "";
    } else {
      var a := CharSound(s);
      var (c, after) := ReadChar(s).value;
      var b := CharsSound(after);
      x := a + b;
      var text := ReadChars(after).value.0;
      assert ([c] + text)[1..] == text;
      assert CharsText(x, [c] + text);
    }
  }

  // ---- Numbers --------------------------------------------------------------------

  lemma NatRead(x: string, n: nat, rest: string)
    requires NatText(x, n) && Delimited(rest)
    ensures ReadNat(x + rest) == Some((n, rest))
  {
    var s := x + rest;
    Decimal.SpanExact(x, rest);
    assert s[..|x|] == x && s[|x|..] == rest;
  }

  lemma PlusRead(x: string, n: nat, rest: string)
    requires NatText(x, n) && Delimited(rest)
    ensures ReadValue(x + rest) == Some((RInt(n), rest))
  {
    NatRead(x, n, rest);
    assert x[0] in x && (x + rest)[0] == x[0];
    PlusStep(x + rest, n, rest);
    NumberValue(x + rest);
  }

  lemma MinusRead(x: string, n: nat, rest: string)
    requires NatText(x, n) && Delimited(rest)
    ensures ReadValue("-" + (x + rest)) == Some((RInt(-(n as int)), rest))
  {
    NatRead(x, n, rest);
    MinusStep(x + rest, n, rest);
    NumberValue("-" + (x + rest));
  }

  lemma NumberValue(t: string)
    requires t != "" && (t[0] == '-' || Decimal.IsDigit(t[0])) && ReadInt(t).Some?
    ensures ReadValue(t) == Some((RInt(ReadInt(t).value.0), ReadInt(t).value.1))
  {
  }

  lemma SignedText(x: string, rest: string)
    requires x != "" && x[0] == '-'
    ensures x + rest == "-" + (x[1..] + rest)
  {
  }

  lemma IntRead(x: string, n: int, rest: string)
    requires IntText(x, n) && Delimited(rest)
    ensures ReadValue(x + rest) == Some((RInt(n), rest))
  {
    if n >= 0 && NatText(x, n) {
      PlusRead(x, n, rest);
    } else {
      SignedText(x, rest);
      MinusRead(x[1..], -n, rest);
    }
  }

  lemma IntStarts(x: string, n: int)
    requires IntText(x, n)
    ensures x != "" && (x[0] == '-' || Decimal.IsDigit(x[0]))
  {
    if n >= 0 && NatText(x, n) { assert x[0] in x; }
  }

  lemma NatSound(s: string) returns (x: string)
    requires ReadNat(s).Some?
    ensures s == x + ReadNat(s).value.1 && NatText(x, ReadNat(s).value.0)
  {
    var n := if s[0] == '0' then 1 else Decimal.Span(s);
    x := s[..n];
    assert x[0] == s[0];
  }

  lemma IntSound(s: string) returns (x: string)
    requires ReadInt(s).Some?
    ensures s == x + ReadInt(s).value.1 && IntText(x, ReadInt(s).value.0)
  {
    if s != "" && s[0] == '-' {
      var y := NatSound(s[1..]);
      x := "-" + y;
      assert x[1..] == y;
    } else {
      x := NatSound(s);
    }
  }

  // ---- The reader reads every text of the grammar ---------------------------------

  lemma Starts(x: string, r: Raw)
    requires ValueText(x, r)
    ensures x != "" && x[0] !in {' ', '\t', '\n', '\r', ']', '}'}
  {
    if r.RInt? {
      IntStarts(x, r.n);
    } else if r.RString? {
      var y :| x == "\"" + y + "\"" && CharsText(y, r.text);
    }
  }

  lemma AroundStarts(w: string, c: char)
    requires Around(w, c)
    ensures w != "" && w[0] in {' ', '\t', '\n', '\r', c}
  {
    var a, b :| w == a + ([c] + b) && Spaces(a) && Spaces(b);
    if a != "" { assert w[0] == a[0]; }
  }

  lemma ItemsDelimited(y: string, items: seq<Raw>, rest: string)
    requires ItemsText(y, items, false)
    ensures Delimited(y + rest)
  {
    if items == [] {
      var w :| y == w + "]" && Spaces(w);
      assert y[0] == if w == "" then ']' else w[0];
    } else {
      var w, x, z :| y == w + (x + z) && Before(w, false) && ValueText(x, items[0])
                     && ItemsText(z, items[1..], false);
      AroundStarts(w, ',');
      assert y[0] == w[0];
    }
  }

  lemma MembersDelimited(y: string, members: seq<Member>, rest: string)
    requires MembersText(y, members, false)
    ensures Delimited(y + rest)
  {
    if members == [] {
      var w :| y == w + "}" && Spaces(w);
      assert y[0] == if w == "" then '}' else w[0];
    } else {
      var w, x, z :| y == w + (x + z) && Before(w, false) && MemberText(x, members[0])
                     && MembersText(z, members[1..], false);
      AroundStarts(w, ',');
      assert y[0] == w[0];
    }
  }

  lemma SplitAround(w: string, c: char, z: string) returns (a: string, b: string)
    requires Around(w, c)
    ensures Spaces(a) && Spaces(b) && w + z == a + ([c] + (b + z))
  {
    a, b :| w == a + ([c] + b) && Spaces(a) && Spaces(b);
  }

  /** What stands before an item is skipped. */
  lemma ItemRead(w: string, first: bool, z: string, item: Raw, after: string, items: seq<Raw>, rest: string)
    requires Before(w, first) && z != "" && z[0] !in {' ', '\t', '\n', '\r', ']'}
    requires ReadValue(z) == Some((item, after)) && ReadItems(after, false) == Some((items, rest))
    ensures ReadItems(w + z, first) == Some(([item] + items, rest))
  {
    if first {
      SpaceBeforeTokens(w, z, first);
      ItemStep(z, first, item, after, items, rest);
      assert "" + z == z;
    } else {
      var a, b := SplitAround(w, ',', z);
      SpaceBeforeTokens(b, z, first);
      SpaceBeforeTokens(a, "," + (b + z), first);
      CommaItem(b + z, item, after, items, rest);
    }
  }

  lemma CommaItem(z: string, item: Raw, after: string, items: seq<Raw>, rest: string)
    requires ReadValue(z) == Some((item, after)) && ReadItems(after, false) == Some((items, rest))
    ensures ReadItems("," + z, false) == Some(([item] + items, rest))
  {
    assert ("," + z)[1..] == z;
  }

  /** What stands before a member is skipped. */
  lemma MemberReadAfter(w: string, first: bool, z: string, m: Member, after: string, ms: seq<Member>, rest: string)
    requires Before(w, first) && z != "" && z[0] == '"'
    requires ReadMember(z) == Some((m, after)) && ReadMembers(after, false) == Some((ms, rest))
    ensures ReadMembers(w + z, first) == Some(([m] + ms, rest))
  {
    if first {
      SpaceBeforeTokens(w, z, first);
      MemberStep(z, first, m, after, ms, rest);
      assert "" + z == z;
    } else {
      var a, b := SplitAround(w, ',', z);
      SpaceBeforeTokens(b, z, first);
      SpaceBeforeTokens(a, "," + (b + z), first);
      CommaMember(b + z, m, after, ms, rest);
    }
  }

  lemma CommaMember(z: string, m: Member, after: string, ms: seq<Member>, rest: string)
    requires ReadMember(z) == Some((m, after)) && ReadMembers(after, false) == Some((ms, rest))
    ensures ReadMembers("," + z, false) == Some(([m] + ms, rest))
  {
    assert ("," + z)[1..] == z;
  }

  lemma NoItemsRead(s: string, first: bool, rest: string)
    requires ItemsText(s, [], first)
    ensures ReadItems(s + rest, first) == Some(([], rest))
  {
    var w :| s == w + "]" && Spaces(w);
    var end := "]" + rest;
    SpaceBeforeTokens(w, end, first);
    NoItems(first, rest);
    TwoThen(w, "]", rest);
  }

  lemma NoMembersRead(s: string, first: bool, rest: string)
    requires MembersText(s, [], first)
    ensures ReadMembers(s + rest, first) == Some(([], rest))
  {
    var w :| s == w + "}" && Spaces(w);
    var end := "}" + rest;
    SpaceBeforeTokens(w, end, first);
    NoMembers(first, rest);
    TwoThen(w, "}", rest);
  }

  lemma TwoThen(w: string, x: string, rest: string)
    ensures w + x + rest == w + (x + rest)
  {
  }

  lemma ThreeThen(w: string, x: string, y: string, rest: string)
    ensures w + (x + y) + rest == w + (x + (y + rest))
  {
  }

  lemma {:induction false} ValueRead(x: string, r: Raw, rest: string)
    requires ValueText(x, r) && Delimited(rest)
    ensures ReadValue(x + rest) == Some((r, rest))
    decreases r, 1
  {
    match r
    case RNull => Word(r, "null", rest);
    case RBool(flag) => Word(r, if flag then "true" else "false", rest);
    case RInt(n) => IntRead(x, n, rest);
    case RString(text) =>
      var y :| x == "\"" + y + "\"" && CharsText(y, text);
      CharsRead(y, text, rest);
      StringStep(y, text, rest);
    case RArray(items) =>
      ItemsRead(x[1..], items, true, rest);
      ArrayStep(x[1..], items, rest);
      assert x == "[" + x[1..];
    case RObject(members) =>
      MembersRead(x[1..], members, true, rest);
      ObjectStep(x[1..], members, rest);
      assert x == "{" + x[1..];
  }

  lemma {:induction false} ItemsRead(s: string, items: seq<Raw>, first: bool, rest: string)
    requires ItemsText(s, items, first)
    ensures ReadItems(s + rest, first) == Some((items, rest))
    decreases items, 0
  {
    if items == [] {
      NoItemsRead(s, first, rest);
    } else {
      var w, x, y :| s == w + (x + y) && Before(w, first) && ValueText(x, items[0])
                     && ItemsText(y, items[1..], false);
      ItemsDelimited(y, items[1..], rest);
      ValueRead(x, items[0], y + rest);
      ItemsRead(y, items[1..], false, rest);
      Starts(x, items[0]);
      ItemRead(w, first, x + (y + rest), items[0], y + rest, items[1..], rest);
      ThreeThen(w, x, y, rest);
      assert items == [items[0]] + items[1..];
    }
  }

  lemma {:induction false} MemberRead(s: string, m: Member, rest: string)
    requires MemberText(s, m) && Delimited(rest)
    ensures s != "" && s[0] == '"' && ReadMember(s + rest) == Some((m, rest))
    decreases m, 0
  {
    var q, w, x :| s == q + (w + x) && StringText(q, m.key) && Around(w, ':') && ValueText(x, m.value);
    var k :| q == "\"" + k + "\"" && CharsText(k, m.key);
    var a, b :| w == a + (":" + b) && Spaces(a) && Spaces(b);
    var z := x + rest;
    CharsRead(k, m.key, a + ":" + (b + z));
    SpaceAroundColon(k + "\"" + (a + ":" + (b + z)), m.key, a, b, z);
    ValueRead(x, m.value, rest);
    MemberJoined(k, a, b, x, rest);
  }

  lemma MemberJoined(k: string, a: string, b: string, x: string, rest: string)
    ensures "\"" + k + "\"" + (a + (":" + b) + x) + rest
         == "\"" + (k + "\"" + (a + ":" + (b + (x + rest))))
  {
  }

  lemma MembersParts(s: string, members: seq<Member>, first: bool) returns (w: string, x: string, y: string)
    requires members != [] && MembersText(s, members, first)
    ensures s == w + (x + y) && Before(w, first) && MemberText(x, members[0])
    ensures MembersText(y, members[1..], false)
  {
    w, x, y :| s == w + (x + y) && Before(w, first) && MemberText(x, members[0])
               && MembersText(y, members[1..], false);
  }

  lemma {:induction false} MembersRead(s: string, members: seq<Member>, first: bool, rest: string)
    requires MembersText(s, members, first)
    ensures ReadMembers(s + rest, first) == Some((members, rest))
    decreases members, 0
  {
    if members == [] {
      NoMembersRead(s, first, rest);
    } else {
      var w, x, y := MembersParts(s, members, first);
      var m, more, after := members[0], members[1..], y + rest;
      MembersDelimited(y, more, rest);
      MemberRead(x, m, after);
      MembersRead(y, more, false, rest);
      assert members == [m] + more;
      assert (x + after)[0] == '"';
      MemberReadAfter(w, first, x + after, m, after, more, rest);
      ThreeThen(w, x, y, rest);
    }
  }

  // ---- What it reads is a text of the grammar -------------------------------------

  lemma {:induction false} SpaceSound(s: string) returns (w: string)
    ensures s == w + SkipSpace(s) && Spaces(w)
  {
    if s != "" && s[0] in {' ', '\t', '\n', '\r'} {
      var v := SpaceSound(s[1..]);
      w := [s[0]] + v;
    } else {
      w := "";
    }
  }

  lemma WordSound(s: string, t: string) returns (x: string)
    requires t == SkipSpace(s) && t != "" && t[0] in {'n', 't', 'f'} && ReadValue(s).Some?
    ensures t == x + ReadValue(s).value.1 && ValueText(x, ReadValue(s).value.0)
  {
    x := if t[0] == 'f' then t[..5] else t[..4];
  }

  lemma StringValue(s: string, t: string)
    requires t == SkipSpace(s) && t != "" && t[0] == '"' && ReadValue(s).Some?
    ensures ReadChars(t[1..]).Some?
    ensures ReadValue(s).value == (RString(ReadChars(t[1..]).value.0), ReadChars(t[1..]).value.1)
  {
  }

  lemma StringIntro(t: string, y: string, text: string, rest: string)
    requires t != "" && t[0] == '"' && t[1..] == y + "\"" + rest && CharsText(y, text)
    ensures t == "\"" + y + "\"" + rest && ValueText("\"" + y + "\"", RString(text))
  {
    Opened(t, '"', y + "\"", rest);
    assert StringText("\"" + y + "\"", text);
    QuotesJoined(y, rest);
  }

  lemma QuotesJoined(y: string, rest: string)
    ensures "\"" + (y + "\"") + rest == "\"" + y + "\"" + rest
  {
  }

  lemma ArrayValue(s: string, t: string)
    requires t == SkipSpace(s) && t != "" && t[0] == '[' && ReadValue(s).Some?
    ensures ReadItems(t[1..], true).Some?
    ensures ReadValue(s).value == (RArray(ReadItems(t[1..], true).value.0), ReadItems(t[1..], true).value.1)
  {
  }

  lemma ArrayIntro(t: string, y: string, items: seq<Raw>, rest: string)
    requires t != "" && t[0] == '[' && t[1..] == y + rest && ItemsText(y, items, true)
    ensures t == "[" + y + rest && ValueText("[" + y, RArray(items))
  {
    Opened(t, '[', y, rest);
  }

  lemma ObjectValue(s: string, t: string)
    requires t == SkipSpace(s) && t != "" && t[0] == '{' && ReadValue(s).Some?
    ensures ReadMembers(t[1..], true).Some?
    ensures ReadValue(s).value == (RObject(ReadMembers(t[1..], true).value.0), ReadMembers(t[1..], true).value.1)
  {
  }

  lemma ObjectIntro(t: string, y: string, members: seq<Member>, rest: string)
    requires t != "" && t[0] == '{' && t[1..] == y + rest && MembersText(y, members, true)
    ensures t == "{" + y + rest && ValueText("{" + y, RObject(members))
  {
    Opened(t, '{', y, rest);
  }

  lemma NumberSound(s: string, t: string) returns (x: string)
    requires t == SkipSpace(s) && t != "" && t[0] !in {'n', 't', 'f', '"', '[', '{'} && ReadValue(s).Some?
    ensures t == x + ReadValue(s).value.1 && ValueText(x, ReadValue(s).value.0)
  {
    x := IntSound(t);
  }

  lemma Opened(t: string, c: char, y: string, rest: string)
    requires t != "" && t[0] == c && t[1..] == y + rest
    ensures t == [c] + y + rest && ([c] + y)[1..] == y
  {
    assert t == [c] + t[1..];
  }

  lemma {:induction false} ValueSound(s: string) returns (w: string, x: string)
    requires ReadValue(s).Some?
    ensures s == w + (x + ReadValue(s).value.1) && Spaces(w) && ValueText(x, ReadValue(s).value.0)
    decreases |s|, 2
  {
    w := SpaceSound(s);
    var t := SkipSpace(s);
    if t[0] in {'n', 't', 'f'} {
      x := WordSound(s, t);
    } else if t[0] == '"' {
      StringValue(s, t);
      var y := CharsSound(t[1..]);
      x := "\"" + y + "\"";
      StringIntro(t, y, ReadChars(t[1..]).value.0, ReadChars(t[1..]).value.1);
    } else if t[0] == '[' {
      ArrayValue(s, t);
      var y := ItemsSound(t[1..], true);
      x := "[" + y;
      ArrayIntro(t, y, ReadItems(t[1..], true).value.0, ReadItems(t[1..], true).value.1);
    } else if t[0] == '{' {
      ObjectValue(s, t);
      var y := MembersSound(t[1..], true);
      x := "{" + y;
      ObjectIntro(t, y, ReadMembers(t[1..], true).value.0, ReadMembers(t[1..], true).value.1);
    } else {
      x := NumberSound(s, t);
    }
  }

  lemma NextItemRead(s: string, first: bool, t: string) returns (u: string)
    requires t == SkipSpace(s) && ReadItems(s, first).Some? && t != "" && t[0] != ']'
    ensures t == (if first then "" else ",") + u && |u| <= |s| && ReadValue(u).Some?
    ensures var (item, after) := ReadValue(u).value;
            && ReadItems(after, false).Some?
            && ReadItems(s, first).value == ([item] + ReadItems(after, false).value.0, ReadItems(after, false).value.1)
  {
    u := if first then t else t[1..];
  }

  lemma {:induction false} ItemsSound(s: string, first: bool) returns (x: string)
    requires ReadItems(s, first).Some?
    ensures s == x + ReadItems(s, first).value.1 && ItemsText(x, ReadItems(s, first).value.0, first)
    decreases |s|, 4
  {
    var w := SpaceSound(s);
    var t := SkipSpace(s);
    if t[0] == ']' {
      x := w + "]";
    } else {
      var u := NextItemRead(s, first, t);
      var v, y := ValueSound(u);
      var (item, after) := ReadValue(u).value;
      var z := ItemsSound(after, false);
      var (items, rest) := ReadItems(after, false).value;
      var b := SpaceBefore(w, first, v);
      ItemsIntro(b, first, y, item, z, items);
      x := b + (y + z);
      RestJoined(s, w, if first then "" else ",", v, y, z, rest);
    }
  }

  lemma SpaceBefore(w: string, first: bool, v: string) returns (b: string)
    requires Spaces(w) && Spaces(v)
    ensures b == w + (if first then "" else ",") + v && Before(b, first)
  {
    b := w + (if first then "" else ",") + v;
    if !first { assert b == w + ([','] + v); }
  }

  lemma RestJoined(s: string, w: string, comma: string, v: string, y: string, z: string, rest: string)
    requires s == w + (comma + (v + (y + (z + rest))))
    ensures s == w + comma + v + (y + z) + rest
  {
  }

  lemma ItemsIntro(w: string, first: bool, x: string, item: Raw, y: string, items: seq<Raw>)
    requires Before(w, first) && ValueText(x, item) && ItemsText(y, items, false)
    ensures ItemsText(w + (x + y), [item] + items, first)
  {
    var all := [item] + items;
    assert all[0] == item && all[1..] == items;
  }

  lemma MembersIntro(w: string, first: bool, x: string, m: Member, y: string, members: seq<Member>)
    requires Before(w, first) && MemberText(x, m) && MembersText(y, members, false)
    ensures MembersText(w + (x + y), [m] + members, first)
  {
    var all := [m] + members;
    assert all[0] == m && all[1..] == members;
  }

  lemma MemberCases(s: string) returns (t: string, key: string, colon: string, c: string)
    requires ReadMember(s).Some?
    ensures t == SkipSpace(s) && t != "" && t[0] == '"' && ReadChars(t[1..]) == Some((key, colon))
    ensures c == SkipSpace(colon) && c != "" && c[0] == ':' && ReadValue(c[1..]).Some? && |c| < |s|
    ensures ReadMember(s).value == (Member(key, ReadValue(c[1..]).value.0), ReadValue(c[1..]).value.1)
  {
    t := SkipSpace(s);
    key, colon := ReadChars(t[1..]).value.0, ReadChars(t[1..]).value.1;
    c := SkipSpace(colon);
  }

  lemma MemberIntro(k: string, key: string, a: string, b: string, y: string, value: Raw)
    requires CharsText(k, key) && Spaces(a) && Spaces(b) && ValueText(y, value)
    ensures MemberText("\"" + k + "\"" + (a + (":" + b) + y), Member(key, value))
  {
    var q, m := "\"" + k + "\"", a + (":" + b);
    assert StringText(q, key) && Around(m, ':');
  }

  lemma {:induction false} MemberSound(s: string) returns (w: string, x: string)
    requires ReadMember(s).Some?
    ensures s == w + (x + ReadMember(s).value.1) && Spaces(w) && MemberText(x, ReadMember(s).value.0)
    decreases |s|, 3
  {
    w := SpaceSound(s);
    var t, key, colon, c := MemberCases(s);
    var k := CharsSound(t[1..]);
    var a := SpaceSound(colon);
    var b, y := ValueSound(c[1..]);
    var (value, after) := ReadValue(c[1..]).value;
    MemberIntro(k, key, a, b, y, value);
    x := "\"" + k + "\"" + (a + (":" + b) + y);
    MemberRest(t, k, colon, a, c, b, y, after);
  }

  lemma MemberRest(t: string, k: string, colon: string, a: string, c: string, b: string, y: string, after: string)
    requires t != "" && t[0] == '"' && t[1..] == k + "\"" + colon && colon == a + c
    requires c != "" && c[0] == ':' && c[1..] == b + (y + after)
    ensures t == "\"" + k + "\"" + (a + (":" + b) + y) + after
  {
    Opened(t, '"', k + "\"", colon);
    Opened(c, ':', b, y + after);
  }

  lemma NextMemberRead(s: string, first: bool, t: string) returns (u: string)
    requires t == SkipSpace(s) && ReadMembers(s, first).Some? && t != "" && t[0] != '}'
    ensures t == (if first then "" else ",") + u && |u| <= |s| && ReadMember(u).Some?
    ensures var (m, after) := ReadMember(u).value;
            && ReadMembers(after, false).Some?
            && ReadMembers(s, first).value
               == ([m] + ReadMembers(after, false).value.0, ReadMembers(after, false).value.1)
  {
    u := if first then t else t[1..];
  }

  lemma {:induction false} MembersSound(s: string, first: bool) returns (x: string)
    requires ReadMembers(s, first).Some?
    ensures s == x + ReadMembers(s, first).value.1 && MembersText(x, ReadMembers(s, first).value.0, first)
    decreases |s|, 4
  {
    var w := SpaceSound(s);
    var t := SkipSpace(s);
    if t[0] == '}' {
      x := w + "}";
    } else {
      var u := NextMemberRead(s, first, t);
      var v, y := MemberSound(u);
      var (m, after) := ReadMember(u).value;
      var z := MembersSound(after, false);
      var (members, rest) := ReadMembers(after, false).value;
      var b := SpaceBefore(w, first, v);
      MembersIntro(b, first, y, m, z, members);
      x := b + (y + z);
      RestJoined(s, w, if first then "" else ",", v, y, z, rest);
    }
  }

  // ---- The theorem ----------------------------------------------------------------

  lemma SpaceEnds(s: string)
    requires SkipSpace(s) == ""
    ensures Spaces(s)
  {
    var w := SpaceSound(s);
  }

  lemma SpacesDelimit(u: string)
    requires Spaces(u)
    ensures Delimited(u)
  {
  }

  /** A text is read as a tree exactly when the grammar derives the tree from it. */
  lemma ReadExactly(s: string, r: Raw)
    ensures Read(s) == Some(r) <==> Json(s, r)
  {
    if Read(s) == Some(r) {
      var w, x := ValueSound(s);
      SpaceEnds(ReadValue(s).value.1);
    }
    if Json(s, r) {
      var w, x, u :| s == w + (x + u) && Spaces(w) && ValueText(x, r) && Spaces(u);
      SpacesDelimit(u);
      ValueRead(x, r, u);
      SpaceBeforeTokens(w, x + u, true);
      AllSpace(u);
    }
  }

  /** The printed text is one of the texts of its tree, and none of them is shorter. */
  lemma PrintedIsShortest(s: string, r: Raw)
    requires Json(s, r)
    ensures Json(JsonText.Print(r), r) && |JsonText.Print(r)| <= |s|
  {
    ReadExactly(s, r);
    PrintIsShortest(s);
    ReadPrint(r);
    ReadExactly(JsonText.Print(r), r);
  }
}
