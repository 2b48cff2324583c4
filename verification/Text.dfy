/** Splitting text on one character. */
module Text {

  /** `split`: never empty, and no part holds the separator. */
  function SplitOn(sep: char, s: string): (parts: seq<string>)
    ensures parts != []
    ensures forall part | part in parts :: sep !in part
  {
    if s == "" then [""]
    else
      var rest := SplitOn(sep, s[1..]);
      if s[0] == sep then [""] + rest else [[s[0]] + rest[0]] + rest[1..]
  }

  lemma {:induction false} SplitAfter(sep: char, part: string, rest: string)
    requires sep !in part
    ensures SplitOn(sep, part + [sep] + rest) == [part] + SplitOn(sep, rest)
  {
    var s := part + [sep] + rest;
    if part == "" {
      assert s == [sep] + rest;
    } else {
      SplitAfter(sep, part[1..], rest);
      assert s[1..] == part[1..] + [sep] + rest && part == [part[0]] + part[1..];
    }
  }

  lemma {:induction false} SplitWhole(sep: char, part: string)
    requires sep !in part
    ensures SplitOn(sep, part) == [part]
  {
    if part != "" {
      SplitWhole(sep, part[1..]);
      assert part == [part[0]] + part[1..];
    }
  }

  lemma {:induction false} SplitFirst(sep: char, s: string)
    ensures var parts := SplitOn(sep, s);
            if |parts| == 1 then parts[0] == s
            else parts[0] + [sep] <= s && SplitOn(sep, s[|parts[0]| + 1..]) == parts[1..]
  {
    if s != "" && s[0] != sep {
      SplitFirst(sep, s[1..]);
      assert s == [s[0]] + s[1..];
    }
  }

  lemma FirstPart(sep: char, s: string) returns (rest: string)
    requires |SplitOn(sep, s)| > 1
    ensures s == SplitOn(sep, s)[0] + [sep] + rest && SplitOn(sep, rest) == SplitOn(sep, s)[1..]
  {
    SplitFirst(sep, s);
    var part := SplitOn(sep, s)[0];
    rest := s[|part| + 1..];
    assert s[..|part| + 1] == part + [sep];
  }

  lemma ThreeJoined(sep: char, s: string, a: string, b: string, c: string)
    requires SplitOn(sep, s) == [a, b, c]
    ensures s == a + [sep] + b + [sep] + c
  {
    var rest := FirstPart(sep, s);
    var last := FirstPart(sep, rest);
    SplitFirst(sep, last);
    Rejoin(sep, s, a, rest, b, last);
  }

  lemma Rejoin(sep: char, s: string, a: string, rest: string, b: string, last: string)
    requires s == a + [sep] + rest && rest == b + [sep] + last
    ensures s == a + [sep] + b + [sep] + last
  {
  }
}
