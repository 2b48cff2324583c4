/** The JSON writer's text is the shortest there is, and white space between tokens does not
    matter to the reader. */
module JsonLaws {
  import opened Decimal
  import opened JsonText
  import opened Wrappers

  // ---- The shortest text ----------------------------------------------------------

  lemma {:induction false} DigitsShortest(s: string)
    requires s != "" && forall c | c in s :: IsDigit(c)
    ensures |Digits(Number(s))| <= |s|
  {
    var n := |s| - 1;
    assert s[n] in s;
    if n > 0 {
      DigitsShortest(s[..n]);
    } else {
      assert s[..n] == "" && Number("") == 0;
    }
  }

  lemma NatCost(s: string)
    requires ReadNat(s).Some?
    ensures var (n, rest) := ReadNat(s).value; |Digits(n)| <= |s| - |rest|
  {
    var n := if s != "" && s[0] == '0' then 1 else Span(s);
    DigitsShortest(s[..n]);
  }

  lemma IntCost(s: string)
    requires ReadInt(s).Some?
    ensures var (n, rest) := ReadInt(s).value; |JsonText.Print(RInt(n))| <= |s| - |rest|
  {
    if s != "" && s[0] == '-' { NatCost(s[1..]); } else { NatCost(s); }
  }

  lemma EscapeCost(s: string)
    requires ReadEscape(s).Some?
    ensures var (c, rest) := ReadEscape(s).value; |EscapeChar(c)| <= 1 + |s| - |rest|
  {
    if s[0] == 'u' { UnicodeCost(s[1..]); }
  }

  lemma UnicodeCost(s: string)
    requires ReadUnicode(s).Some?
    ensures |s| - |ReadUnicode(s).value.1| >= 4
  {
  }

  lemma {:induction false} CharsCost(s: string)
    requires ReadChars(s).Some?
    ensures var (text, rest) := ReadChars(s).value; |Escape(text)| + 1 <= |s| - |rest|
    decreases |s|
  {
    if s[0] != '"' {
      if s[0] == '\\' { EscapeCost(s[1..]); }
      var (c, after) := if s[0] == '\\' then ReadEscape(s[1..]).value else (s[0], s[1..]);
      CharsCost(after);
      var (text, rest) := ReadChars(after).value;
      assert ([c] + text)[1..] == text;
    }
  }

  lemma {:induction false} ValueCost(s: string)
    requires ReadValue(s).Some?
    ensures var (value, rest) := ReadValue(s).value; |JsonText.Print(value)| <= |s| - |rest|
    decreases |s|, 2
  {
    var t := SkipSpace(s);
    if t[0] == '"' {
      CharsCost(t[1..]);
    } else if t[0] == '[' {
      ItemsCost(t[1..], true);
    } else if t[0] == '{' {
      MembersCost(t[1..], true);
    } else if t[0] != 'n' && t[0] != 't' && t[0] != 'f' {
      IntCost(t);
    }
  }

  lemma {:induction false} ItemsCost(s: string, first: bool)
    requires ReadItems(s, first).Some?
    ensures var (items, rest) := ReadItems(s, first).value; |PrintItems(items, first)| <= |s| - |rest|
    decreases |s|, 4
  {
    var t := SkipSpace(s);
    if t[0] != ']' {
      var u := if first then t else t[1..];
      ValueCost(u);
      var (item, after) := ReadValue(u).value;
      ItemsCost(after, false);
      var (items, rest) := ReadItems(after, false).value;
      assert ([item] + items)[1..] == items;
    }
  }

  lemma {:induction false} MemberCost(s: string)
    requires ReadMember(s).Some?
    ensures var (m, rest) := ReadMember(s).value; |Quote(m.key)| + 1 + |JsonText.Print(m.value)| <= |s| - |rest|
    decreases |s|, 3
  {
    var t := SkipSpace(s);
    CharsCost(t[1..]);
    var colon := SkipSpace(ReadChars(t[1..]).value.1);
    ValueCost(colon[1..]);
  }

  lemma {:induction false} MembersCost(s: string, first: bool)
    requires ReadMembers(s, first).Some?
    ensures var (ms, rest) := ReadMembers(s, first).value; |PrintMembers(ms, first)| <= |s| - |rest|
    decreases |s|, 4
  {
    var t := SkipSpace(s);
    if t[0] != '}' {
      var u := if first then t else t[1..];
      MemberCost(u);
      var (m, after) := ReadMember(u).value;
      MembersCost(after, false);
      var (ms, rest) := ReadMembers(after, false).value;
      assert ([m] + ms)[1..] == ms;
    }
  }

  /** No text that reads as a tree is shorter than the printed one: no space, no plus sign or
      leading zero, no escape that is not needed or longer than needed. */
  lemma PrintIsShortest(text: string)
    requires Read(text).Some?
    ensures |JsonText.Print(Read(text).value)| <= |text|
  {
    ValueCost(text);
  }

  /** Of the escapes of one length, the hexadecimal digits are the lower-case ones. */
  lemma EscapesAreLowerCase(c: char, i: nat)
    requires i < |EscapeChar(c)| && |EscapeChar(c)| > 1
    ensures !('A' <= EscapeChar(c)[i] <= 'F')
  {
  }

  // ---- White space ----------------------------------------------------------------

  predicate Spaces(w: string) {
    forall i | 0 <= i < |w| :: w[i] in {' ', '\t', '\n', '\r'}
  }

  lemma {:induction false} SpaceSkipped(w: string, s: string)
    requires Spaces(w)
    ensures SkipSpace(w + s) == SkipSpace(s)
  {
    if w == "" {
      assert w + s == s;
    } else {
      SpaceSkipped(w[1..], s);
      assert (w + s)[1..] == w[1..] + s && (w + s)[0] == w[0];
    }
  }

  /** Before a value, and before an item, a member, a comma or the closing bracket. */
  lemma SpaceBeforeTokens(w: string, s: string, first: bool)
    requires Spaces(w)
    ensures ReadValue(w + s) == ReadValue(s) && ReadMember(w + s) == ReadMember(s)
    ensures ReadItems(w + s, first) == ReadItems(s, first) && ReadMembers(w + s, first) == ReadMembers(s, first)
  {
    SpaceSkipped(w, s);
  }

  /** After a key and after its colon. */
  lemma SpaceAroundColon(x: string, key: string, w: string, u: string, y: string)
    requires Spaces(w) && Spaces(u) && ReadChars(x) == Some((key, w + ":" + (u + y)))
    ensures ReadMember("\"" + x)
         == if ReadValue(y).None? then None else Some((Member(key, ReadValue(y).value.0), ReadValue(y).value.1))
  {
    var s := "\"" + x;
    assert s[0] == '"' && s[1..] == x;
    assert w + ":" + (u + y) == w + (":" + (u + y));
    SpaceSkipped(w, ":" + (u + y));
    assert (":" + (u + y))[1..] == u + y;
    SpaceBeforeTokens(u, y, true);
  }

  lemma {:induction false} AllSpace(w: string)
    requires Spaces(w)
    ensures SkipSpace(w) == ""
  {
    if w != "" { AllSpace(w[1..]); }
  }

  // ---- Escaped code units ---------------------------------------------------------

  lemma Nibbles(n: nat)
    ensures n == n / 4096 * 4096 + n / 256 % 16 * 256 + n / 16 % 16 * 16 + n % 16
  {
    assert n / 256 == n / 16 / 16 && n / 4096 == n / 16 / 16 / 16;
  }

  lemma FourDigits(s: string, a: nat, b: nat, c: nat, d: nat)
    requires |s| >= 4 && a < 16 && b < 16 && c < 16 && d < 16
    requires HexValue(s[0]) == Some(a) && HexValue(s[1]) == Some(b)
    requires HexValue(s[2]) == Some(c) && HexValue(s[3]) == Some(d)
    ensures ReadHex(s) == Some(a * 4096 + b * 256 + c * 16 + d)
  {
  }

  lemma PairRead(s: string, high: nat, low: nat)
    requires 0xD800 <= high < 0xDC00 && 0xDC00 <= low < 0xE000
    requires ReadHex(s) == Some(high) && |s| >= 6 && s[4..6] == "\\u" && ReadHex(s[6..]) == Some(low)
    ensures ReadUnicode(s) == Some(((0x10000 + (high - 0xD800) * 0x400 + (low - 0xDC00)) as char, s[10..]))
  {
  }
}
