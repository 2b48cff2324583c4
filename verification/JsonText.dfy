/** JSON text (RFC 8259) without fractions and exponents: the syntax tree a text denotes,
    the compact printer, and the reader. Object members keep their order and repetitions,
    as the program's raw values do. */
module JsonText {
  import Decimal
  import opened Wrappers

  datatype Raw =
    | RNull
    | RBool(flag: bool)
    | RInt(n: int)
    | RString(text: string)
    | RArray(items: seq<Raw>)
    | RObject(members: seq<Member>)

  datatype Member = Member(key: string, value: Raw)

  // ---- Printing -------------------------------------------------------------------

  function HexDigit(d: nat): char
    requires d < 16
  {
    if d < 10 then (0x30 + d) as char else (0x57 + d) as char
  }

  /** The escapes of section 3.2.2.2 of RFC 8785. */
  function EscapeChar(c: char): (s: string)
    ensures s != ""
  {
    if c == '"' then "\\\""
    else if c == '\\' then "\\\\"
    else if c as int == 0x08 then "\\b"
    else if c as int == 0x0C then "\\f"
    else if c == '\n' then "\\n"
    else if c == '\r' then "\\r"
    else if c == '\t' then "\\t"
    else if c as int < 0x20 then ['\\', 'u', '0', '0', HexDigit(c as int / 16), HexDigit(c as int % 16)]
    else [c]
  }

  function Escape(s: string): string {
    if s == "" then "" else EscapeChar(s[0]) + Escape(s[1..])
  }

  function Quote(s: string): string {
    "\"" + Escape(s) + "\""
  }

  function Print(r: Raw): (s: string)
    ensures s != ""
  {
    match r
    case RNull => "null"
    case RBool(flag) => if flag then "true" else "false"
    case RInt(n) => Decimal.Print(n)
    case RString(text) => Quote(text)
    case RArray(items) => "[" + PrintItems(items, true)
    case RObject(members) => "{" + PrintMembers(members, true)
  }

  /** The rest of an array, up to its bracket. */
  function PrintItems(items: seq<Raw>, first: bool): (s: string)
    ensures s != ""
  {
    if items == [] then "]"
    else (if first then "" else ",") + Print(items[0]) + PrintItems(items[1..], false)
  }

  function PrintMembers(members: seq<Member>, first: bool): (s: string)
    ensures s != ""
  {
    if members == [] then "}"
    else
      (if first then "" else ",") + Quote(members[0].key) + ":" + Print(members[0].value)
      + PrintMembers(members[1..], false)
  }

  // ---- Reading --------------------------------------------------------------------

  function SkipSpace(s: string): (r: string)
    ensures |r| <= |s|
  {
    if s != "" && s[0] in {' ', '\t', '\n', '\r'} then SkipSpace(s[1..]) else s
  }

  function HexValue(c: char): (r: Option<nat>)
    ensures r.Some? ==> r.value < 16
  {
    if '0' <= c <= '9' then Some(c as int - 0x30)
    else if 'a' <= c <= 'f' then Some(c as int - 0x57)
    else if 'A' <= c <= 'F' then Some(c as int - 0x37)
    else None
  }

  /** The four hexadecimal digits of a `\u` escape. */
  function ReadHex(s: string): (r: Option<nat>)
    ensures r.Some? ==> |s| >= 4 && r.value < 0x10000
  {
    if |s| < 4 then None
    else
      var a :- HexValue(s[0]);
      var b :- HexValue(s[1]);
      var c :- HexValue(s[2]);
      var d :- HexValue(s[3]);
      Some(a * 4096 + b * 256 + c * 16 + d)
  }

  /** A character after `\u`; surrogates must come in pairs. */
  function ReadUnicode(s: string): (r: Option<(char, string)>)
    ensures r.Some? ==> |r.value.1| < |s|
  {
    var high :- ReadHex(s);
    if high < 0xD800 || high >= 0xE000 then Some((high as char, s[4..]))
    else if high >= 0xDC00 || |s| < 6 || s[4..6] != "\\u" then None
    else
      var low :- ReadHex(s[6..]);
      if low < 0xDC00 || low >= 0xE000 then None
      else Some(((0x10000 + (high - 0xD800) * 0x400 + (low - 0xDC00)) as char, s[10..]))
  }

  /** A character after a backslash. */
  function ReadEscape(s: string): (r: Option<(char, string)>)
    ensures r.Some? ==> |r.value.1| < |s|
  {
    if s == "" then None
    else if s[0] in {'"', '\\', '/'} then Some((s[0], s[1..]))
    else if s[0] == 'b' then Some((0x08 as char, s[1..]))
    else if s[0] == 'f' then Some((0x0C as char, s[1..]))
    else if s[0] == 'n' then Some(('\n', s[1..]))
    else if s[0] == 'r' then Some(('\r', s[1..]))
    else if s[0] == 't' then Some(('\t', s[1..]))
    else if s[0] == 'u' then ReadUnicode(s[1..])
    else None
  }

  /** The rest of a string, up to its quote. */
  function ReadChars(s: string): (r: Option<(string, string)>)
    ensures r.Some? ==> |r.value.1| < |s|
    decreases |s|
  {
    if s == "" || s[0] as int < 0x20 then None
    else if s[0] == '"' then Some(("", s[1..]))
    else
      var (c, after) :- if s[0] == '\\' then ReadEscape(s[1..]) else Some((s[0], s[1..]));
      var (text, rest) :- ReadChars(after);
      Some(([c] + text, rest))
  }

  /** Digits without a leading zero; a fraction or an exponent is outside this model. */
  function ReadNat(s: string): (r: Option<(nat, string)>)
    ensures r.Some? ==> |r.value.1| < |s|
  {
    var n := if s != "" && s[0] == '0' then 1 else Decimal.Span(s);
    if n == 0 then None
    else
      assert forall c | c in s[..n] :: Decimal.IsDigit(c);
      var rest := s[n..];
      if rest != "" && rest[0] in {'.', 'e', 'E'} then None
      else Some((Decimal.Number(s[..n]), rest))
  }

  function ReadInt(s: string): (r: Option<(int, string)>)
    ensures r.Some? ==> |r.value.1| < |s|
  {
    if s != "" && s[0] == '-' then
      var (n, rest) :- ReadNat(s[1..]);
      Some((-(n as int), rest))
    else
      var (n, rest) :- ReadNat(s);
      Some((n as int, rest))
  }

  function ReadValue(s: string): (r: Option<(Raw, string)>)
    ensures r.Some? ==> |r.value.1| < |s|
    decreases |s|, 2
  {
    var t := SkipSpace(s);
    if t == "" then None
    else if t[0] == 'n' then
      if |t| >= 4 && t[..4] == "null" then Some((RNull, t[4..])) else None
    else if t[0] == 't' then
      if |t| >= 4 && t[..4] == "true" then Some((RBool(true), t[4..])) else None
    else if t[0] == 'f' then
      if |t| >= 5 && t[..5] == "false" then Some((RBool(false), t[5..])) else None
    else if t[0] == '"' then
      var (text, rest) :- ReadChars(t[1..]);
      Some((RString(text), rest))
    else if t[0] == '[' then
      var (items, rest) :- ReadItems(t[1..], true);
      Some((RArray(items), rest))
    else if t[0] == '{' then
      var (members, rest) :- ReadMembers(t[1..], true);
      Some((RObject(members), rest))
    else
      var (n, rest) :- ReadInt(t);
      Some((RInt(n), rest))
  }

  /** The rest of an array: its bracket, or one more item after the comma it needs. */
  function ReadItems(s: string, first: bool): (r: Option<(seq<Raw>, string)>)
    ensures r.Some? ==> |r.value.1| < |s|
    decreases |s|, 4
  {
    var t := SkipSpace(s);
    if t == "" then None
    else if t[0] == ']' then Some(([], t[1..]))
    else if !first && t[0] != ',' then None
    else
      var (item, after) :- ReadValue(if first then t else t[1..]);
      var (items, rest) :- ReadItems(after, false);
      Some(([item] + items, rest))
  }

  /** A key, its colon and a value. */
  function ReadMember(s: string): (r: Option<(Member, string)>)
    ensures r.Some? ==> |r.value.1| < |s|
    decreases |s|, 3
  {
    var t := SkipSpace(s);
    if t == "" || t[0] != '"' then None
    else
      var (key, colon) :- ReadChars(t[1..]);
      var colon := SkipSpace(colon);
      if colon == "" || colon[0] != ':' then None
      else
        var (value, after) :- ReadValue(colon[1..]);
        Some((Member(key, value), after))
  }

  function ReadMembers(s: string, first: bool): (r: Option<(seq<Member>, string)>)
    ensures r.Some? ==> |r.value.1| < |s|
    decreases |s|, 4
  {
    var t := SkipSpace(s);
    if t == "" then None
    else if t[0] == '}' then Some(([], t[1..]))
    else if !first && t[0] != ',' then None
    else
      var (member, after) :- ReadMember(if first then t else t[1..]);
      var (members, rest) :- ReadMembers(after, false);
      Some(([member] + members, rest))
  }

  /** A whole text: one value and nothing but space around it. */
  function Read(s: string): Option<Raw> {
    var (value, rest) :- ReadValue(s);
    if SkipSpace(rest) == "" then Some(value) else None
  }

  // ---- Reading what was printed ---------------------------------------------------

  /** What may follow a printed value. */
  predicate Delimited(rest: string) {
    rest == "" || rest[0] in {',', ']', '}', ' ', '\t', '\n', '\r'}
  }

  lemma ReadsEscapedChar(c: char, rest: string)
    ensures var s := EscapeChar(c) + rest;
            && s[0] as int >= 0x20 && s[0] != '"'
            && (if s[0] == '\\' then ReadEscape(s[1..]) else Some((s[0], s[1..]))) == Some((c, rest))
  {
    var e := EscapeChar(c);
    var s := e + rest;
    if |e| == 1 {
      assert s[1..] == rest;
    } else if |e| == 2 {
      assert s[1] == e[1] && s[1..][1..] == rest;
    } else {
      var u := s[1..][1..];
      assert u == ['0', '0', e[4], e[5]] + rest;
      assert HexValue(e[4]) == Some(c as int / 16) && HexValue(e[5]) == Some(c as int % 16);
      assert ReadHex(u) == Some(c as int);
      assert u[4..] == rest;
    }
  }

  lemma {:induction false} ReadsQuoted(text: string, rest: string)
    ensures ReadChars(Escape(text) + "\"" + rest) == Some((text, rest))
  {
    if text == "" {
      assert Escape(text) + "\"" + rest == "\"" + rest;
    } else {
      var after := Escape(text[1..]) + "\"" + rest;
      assert Escape(text) + "\"" + rest == EscapeChar(text[0]) + after;
      ReadsEscapedChar(text[0], after);
      ReadsQuoted(text[1..], rest);
      assert text == [text[0]] + text[1..];
    }
  }

  lemma ReadsPrintedNat(n: nat, rest: string)
    requires Delimited(rest)
    ensures ReadNat(Decimal.Digits(n) + rest) == Some((n, rest))
  {
    var digits := Decimal.Digits(n);
    Decimal.SpanExact(digits, rest);
    Decimal.NumberOfDigits(n);
    var s := digits + rest;
    assert s[..|digits|] == digits && s[|digits|..] == rest;
  }

  lemma MinusStep(t: string, n: nat, rest: string)
    requires ReadNat(t) == Some((n, rest))
    ensures ReadInt("-" + t) == Some((-(n as int), rest))
  {
    assert ("-" + t)[0] == '-' && ("-" + t)[1..] == t;
  }

  lemma PlusStep(t: string, n: nat, rest: string)
    requires ReadNat(t) == Some((n, rest)) && t != "" && t[0] != '-'
    ensures ReadInt(t) == Some((n, rest))
  {
  }

  lemma ReadsPrintedInt(n: int, rest: string)
    requires Delimited(rest)
    ensures ReadInt(Decimal.Print(n) + rest) == Some((n, rest))
  {
    var digits := Decimal.Digits(if n < 0 then -n else n);
    var t := digits + rest;
    ReadsPrintedNat(if n < 0 then -n else n, rest);
    if n < 0 {
      MinusStep(t, -n, rest);
      assert Decimal.Print(n) + rest == "-" + t;
    } else {
      assert digits[0] in digits && t[0] == digits[0];
      PlusStep(t, n, rest);
    }
  }

  /** The first character of a printed value is not space, and says which kind it is. */
  lemma PrintedIntStarts(n: int, rest: string)
    ensures var s := Decimal.Print(n) + rest; s[0] == '-' || Decimal.IsDigit(s[0])
  {
    var digits := Decimal.Digits(if n < 0 then -n else n);
    assert digits[0] in digits;
  }

  lemma PrintedStarts(r: Raw, rest: string)
    ensures var s := Print(r) + rest; s[0] !in {' ', '\t', '\n', '\r', ']', '}'}
  {
    if r.RInt? { PrintedIntStarts(r.n, rest); }
  }

  lemma Word(r: Raw, word: string, rest: string)
    requires (r == RNull && word == "null") || (r == RBool(true) && word == "true")
          || (r == RBool(false) && word == "false")
    ensures ReadValue(word + rest) == Some((r, rest))
  {
    var s := word + rest;
    assert s[..|word|] == word && s[|word|..] == rest;
  }

  lemma StringStep(x: string, text: string, rest: string)
    requires ReadChars(x + "\"" + rest) == Some((text, rest))
    ensures ReadValue("\"" + x + "\"" + rest) == Some((RString(text), rest))
  {
    assert ("\"" + x + "\"" + rest)[1..] == x + "\"" + rest;
  }

  lemma ArrayStep(x: string, items: seq<Raw>, rest: string)
    requires ReadItems(x + rest, true) == Some((items, rest))
    ensures ReadValue("[" + x + rest) == Some((RArray(items), rest))
  {
    assert ("[" + x + rest)[1..] == x + rest;
  }

  lemma ObjectStep(x: string, members: seq<Member>, rest: string)
    requires ReadMembers(x + rest, true) == Some((members, rest))
    ensures ReadValue("{" + x + rest) == Some((RObject(members), rest))
  {
    assert ("{" + x + rest)[1..] == x + rest;
  }

  lemma IntStep(n: int, rest: string)
    requires Delimited(rest)
    ensures ReadValue(Decimal.Print(n) + rest) == Some((RInt(n), rest))
  {
    PrintedIntStarts(n, rest);
    ReadsPrintedInt(n, rest);
  }

  lemma ItemStep(x: string, first: bool, item: Raw, after: string, items: seq<Raw>, rest: string)
    requires x != "" && x[0] !in {' ', '\t', '\n', '\r', ']'}
    requires ReadValue(x) == Some((item, after)) && ReadItems(after, false) == Some((items, rest))
    ensures ReadItems((if first then "" else ",") + x, first) == Some(([item] + items, rest))
  {
    var s := (if first then "" else ",") + x;
    assert if first then s == x else s[1..] == x;
  }

  lemma KeyStep(s: string, x: string, key: string, y: string, value: Raw, after: string)
    requires s == "\"" + x && ReadChars(x) == Some((key, ":" + y)) && ReadValue(y) == Some((value, after))
    ensures ReadMember(s) == Some((Member(key, value), after))
  {
    assert s[0] == '"' && s[1..] == x && (":" + y)[1..] == y;
  }

  lemma MemberStep(s: string, first: bool, member: Member, after: string, members: seq<Member>, rest: string)
    requires s != "" && s[0] == '"' && ReadMember(s) == Some((member, after))
    requires ReadMembers(after, false) == Some((members, rest))
    ensures ReadMembers((if first then "" else ",") + s, first) == Some(([member] + members, rest))
  {
    var t := (if first then "" else ",") + s;
    assert if first then t == s else t[1..] == s;
  }

  lemma {:induction false} ReadsPrinted(r: Raw, rest: string)
    requires Delimited(rest)
    ensures ReadValue(Print(r) + rest) == Some((r, rest))
    decreases r, 1
  {
    match r
    case RNull => Word(r, "null", rest);
    case RBool(flag) => Word(r, if flag then "true" else "false", rest);
    case RInt(n) => IntStep(n, rest);
    case RString(text) =>
      ReadsQuoted(text, rest);
      StringStep(Escape(text), text, rest);
    case RArray(items) =>
      ReadsPrintedItems(items, true, rest);
      ArrayStep(PrintItems(items, true), items, rest);
    case RObject(members) =>
      ReadsPrintedMembers(members, true, rest);
      ObjectStep(PrintMembers(members, true), members, rest);
  }

  lemma NoItems(first: bool, rest: string)
    ensures ReadItems("]" + rest, first) == Some(([], rest))
  {
    assert ("]" + rest)[0] == ']' && ("]" + rest)[1..] == rest;
  }

  lemma NextItem(item: Raw, first: bool, more: string, items: seq<Raw>, rest: string)
    requires ReadValue(Print(item) + (more + rest)) == Some((item, more + rest))
    requires ReadItems(more + rest, false) == Some((items, rest))
    ensures ReadItems((if first then "" else ",") + Print(item) + more + rest, first)
         == Some(([item] + items, rest))
  {
    var comma, after := if first then "" else ",", more + rest;
    var x := Print(item) + after;
    PrintedStarts(item, after);
    ItemStep(x, first, item, after, items, rest);
    ItemText(comma, Print(item), more, rest);
  }

  lemma ItemText(comma: string, item: string, more: string, rest: string)
    ensures comma + item + more + rest == comma + (item + (more + rest))
  {
  }

  lemma {:induction false} ReadsPrintedItems(items: seq<Raw>, first: bool, rest: string)
    ensures ReadItems(PrintItems(items, first) + rest, first) == Some((items, rest))
    decreases items, 0
  {
    if items == [] {
      NoItems(first, rest);
    } else {
      var item, more := items[0], PrintItems(items[1..], false);
      assert Delimited(more + rest);
      ReadsPrinted(item, more + rest);
      ReadsPrintedItems(items[1..], false, rest);
      NextItem(item, first, more, items[1..], rest);
      assert items == [item] + items[1..];
    }
  }

  lemma NoMembers(first: bool, rest: string)
    ensures ReadMembers("}" + rest, first) == Some(([], rest))
  {
    assert ("}" + rest)[0] == '}' && ("}" + rest)[1..] == rest;
  }

  lemma NextMember(m: Member, first: bool, more: string, members: seq<Member>, rest: string)
    requires ReadValue(Print(m.value) + (more + rest)) == Some((m.value, more + rest))
    requires ReadMembers(more + rest, false) == Some((members, rest))
    ensures ReadMembers((if first then "" else ",") + Quote(m.key) + ":" + Print(m.value) + more + rest, first)
         == Some(([m] + members, rest))
  {
    var after := more + rest;
    var y := Print(m.value) + after;
    var x := Escape(m.key) + "\"" + (":" + y);
    ReadsQuoted(m.key, ":" + y);
    MemberText(first, m.key, Print(m.value), more, rest);
    KeyStep("\"" + x, x, m.key, y, m.value, after);
    MemberStep("\"" + x, first, m, after, members, rest);
  }

  lemma {:induction false} ReadsPrintedMembers(members: seq<Member>, first: bool, rest: string)
    ensures ReadMembers(PrintMembers(members, first) + rest, first) == Some((members, rest))
    decreases members, 0
  {
    if members == [] {
      NoMembers(first, rest);
    } else {
      var m, more := members[0], PrintMembers(members[1..], false);
      assert Delimited(more + rest);
      ReadsPrinted(m.value, more + rest);
      ReadsPrintedMembers(members[1..], false, rest);
      NextMember(m, first, more, members[1..], rest);
      assert members == [m] + members[1..];
    }
  }

  lemma MemberText(first: bool, key: string, value: string, more: string, rest: string)
    ensures (if first then "" else ",") + Quote(key) + ":" + value + more + rest
         == (if first then "" else ",") + ("\"" + (Escape(key) + "\"" + (":" + (value + (more + rest)))))
  {
  }

  /** Printing loses nothing. */
  lemma ReadPrint(r: Raw)
    ensures Read(Print(r)) == Some(r)
  {
    ReadsPrinted(r, "");
    assert Print(r) + "" == Print(r);
  }

  lemma PrintInjective(r: Raw, s: Raw)
    requires Print(r) == Print(s)
    ensures r == s
  {
    ReadPrint(r);
    ReadPrint(s);
  }
}
