/** Fenced code blocks in Markdown: two independent scanners, one yielding the blocks and one
    the lines outside them. */
module Fences {
  import opened Wrappers
  import Text

  // ---- Fence lines ----------------------------------------------------------------

  type Marker = s: string | |s| >= 3 witness "```"

  datatype Fence = Fence(marker: Marker, info: string)

  predicate Blank(c: char) {
    c == ' ' || c == '\t'
  }

  /** Unicode white space. */
  predicate Space(c: char) {
    var n := c as int;
    || 0x09 <= n <= 0x0D || 0x1C <= n <= 0x20 || n == 0x85 || n == 0xA0 || n == 0x1680
    || 0x2000 <= n <= 0x200A || n == 0x2028 || n == 0x2029 || n == 0x202F || n == 0x205F || n == 0x3000
  }

  predicate InfoChar(c: char) {
    !Space(c) && c != '`'
  }

  /** The longest start of s whose characters satisfy p, and what follows it. */
  function Take(p: char -> bool, s: string): string {
    if s == "" || !p(s[0]) then "" else [s[0]] + Take(p, s[1..])
  }

  function Drop(p: char -> bool, s: string): string {
    if s == "" || !p(s[0]) then s else Drop(p, s[1..])
  }

  function Same(c: char): char -> bool {
    (x: char) => x == c
  }

  /** At most one word, and nothing else. */
  function Word(rest: string): Option<string> {
    if Drop(Blank, Drop(InfoChar, rest)) != "" then None else Some(Take(InfoChar, rest))
  }

  function MatchRun(s: string): Option<Fence>
    requires s != ""
  {
    var run := Take(Same(s[0]), s);
    var info :- Word(Drop(Blank, Drop(Same(s[0]), s)));
    if |run| < 3 then None else Some(Fence(run, info))
  }

  /** Indentation, a run of at least three backticks or tildes, and at most one word. */
  function Match(line: string): Option<Fence> {
    var s := Drop(Blank, line);
    if s == "" || (s[0] != '`' && s[0] != '~') then None else MatchRun(s)
  }

  /** The character classes of the pattern: `[ \t]`, and all but white space and backticks. */
  lemma ClassesExactly(c: char)
    ensures Blank(c) <==> c in [' ', '\t']
    ensures !InfoChar(c) <==>
            c in ['`', ' ', '\t', '\n', '\r', '\U{B}', '\U{C}', '\U{1C}', '\U{1D}', '\U{1E}', '\U{1F}',
                  '\U{85}', '\U{A0}', '\U{1680}', '\U{2000}', '\U{2001}', '\U{2002}', '\U{2003}',
                  '\U{2004}', '\U{2005}', '\U{2006}', '\U{2007}', '\U{2008}', '\U{2009}', '\U{200A}',
                  '\U{2028}', '\U{2029}', '\U{202F}', '\U{205F}', '\U{3000}']
  {
  }

  // ---- The pattern it stands for --------------------------------------------------

  predicate All(p: char -> bool, s: string) {
    forall i | 0 <= i < |s| :: p(s[i])
  }

  /** The groups of the pattern, without saying how far each one reaches. */
  predicate Pattern(line: string, indent: string, marker: string, gap: string, info: string, tail: string) {
    && line == indent + marker + gap + info + tail
    && All(Blank, indent) && All(Blank, gap) && All(Blank, tail) && All(InfoChar, info)
    && |marker| >= 3 && (marker[0] == '`' || marker[0] == '~') && All(Same(marker[0]), marker)
  }

  lemma {:induction false} Parts(p: char -> bool, s: string)
    ensures Take(p, s) + Drop(p, s) == s && All(p, Take(p, s))
  {
    if s != "" && p(s[0]) {
      Parts(p, s[1..]);
      var c, taken, left := s[0], Take(p, s[1..]), Drop(p, s[1..]);
      assert Take(p, s) == [c] + taken && Drop(p, s) == left;
      assert s == [c] + (taken + left) == [c] + taken + left;
    }
  }

  lemma {:induction false} PartsOf(p: char -> bool, s: string, rest: string)
    requires All(p, s) && (rest == "" || !p(rest[0]))
    ensures Take(p, s + rest) == s && Drop(p, s + rest) == rest
  {
    if s == "" {
      assert s + rest == rest;
    } else {
      assert forall i | 0 <= i < |s[1..]| :: s[1..][i] == s[i + 1];
      PartsOf(p, s[1..], rest);
      assert (s + rest)[1..] == s[1..] + rest && s == [s[0]] + s[1..];
    }
  }

  lemma WordOf(info: string, tail: string)
    requires All(InfoChar, info) && All(Blank, tail)
    ensures Word(info + tail) == Some(info)
  {
    PartsOf(InfoChar, info, tail);
    PartsOf(Blank, tail, "");
    assert tail + "" == tail;
  }

  lemma RunMatch(s: string, marker: Marker, gap: string, info: string, tail: string)
    requires s == marker + gap + info + tail && All(Same(marker[0]), marker)
    requires All(Blank, gap) && All(InfoChar, info) && All(Blank, tail)
    requires var after := gap + info + tail; after == "" || after[0] != marker[0]
    requires info == "" ==> tail == ""
    ensures MatchRun(s) == Some(Fence(marker, info))
  {
    var word := info + tail;
    var after := gap + word;
    assert after == gap + info + tail && s == marker + after && s[0] == marker[0];
    PartsOf(Same(marker[0]), marker, after);
    PartsOf(Blank, gap, word);
    WordOf(info, tail);
  }

  /** A line whose groups reach as far as they can is matched with those groups. */
  lemma GreedyMatch(line: string, indent: string, marker: Marker, gap: string, info: string, tail: string)
    requires Pattern(line, indent, marker, gap, info, tail)
    requires var after := gap + info + tail; after == "" || after[0] != marker[0]
    requires info == "" ==> tail == ""
    ensures Match(line) == Some(Fence(marker, info))
  {
    var s := marker + gap + info + tail;
    assert line == indent + s && s[0] == marker[0];
    PartsOf(Blank, indent, s);
    RunMatch(s, marker, gap, info, tail);
  }

  /** Regroup until every group reaches as far as it can: spare tildes at the start of the
      info word belong to the run, and blanks after an empty word to the gap. */
  lemma {:induction false} MatchFromPattern(line: string, indent: string, marker: string, gap: string,
                                            info: string, tail: string)
    requires Pattern(line, indent, marker, gap, info, tail)
    ensures Match(line).Some? && |Match(line).value.marker| >= |marker|
    decreases |line| - |marker|, |tail|
  {
    if info == "" && tail != "" {
      assert gap + info + tail == (gap + tail) + info + "";
      assert indent + marker + gap + info + tail == indent + marker + (gap + tail) + info + "";
      MatchFromPattern(line, indent, marker, gap + tail, info, "");
    } else if gap == "" && info != "" && info[0] == marker[0] {
      var more := marker + [info[0]];
      assert info == [info[0]] + info[1..];
      assert indent + marker + gap + info + tail == indent + more + gap + info[1..] + tail;
      assert more[0] == marker[0];
      assert All(Same(more[0]), more);
      assert |line| >= |more|;
      MatchFromPattern(line, indent, more, gap, info[1..], tail);
    } else {
      var after := gap + info + tail;
      assert after != "" ==> after[0] == if gap != "" then gap[0] else info[0];
      GreedyMatch(line, indent, marker, gap, info, tail);
    }
  }

  lemma Glue(line: string, a: string, b: string, c: string, d: string, e: string, f: string, g: string, h: string)
    requires line == a + b && b == c + d && d == e + f && f == g + h
    ensures line == a + c + e + g + h
  {
    assert a + (c + (e + (g + h))) == a + c + e + g + h;
  }

  lemma FenceHasPattern(line: string)
    requires Match(line).Some?
    ensures exists indent, marker, gap, info, tail :: Pattern(line, indent, marker, gap, info, tail)
  {
    var s := Drop(Blank, line);
    var after := Drop(Same(s[0]), s);
    var word := Drop(Blank, after);
    var indent, marker, gap := Take(Blank, line), Take(Same(s[0]), s), Take(Blank, after);
    var info, tail := Take(InfoChar, word), Drop(InfoChar, word);
    Parts(Blank, line);
    Parts(Same(s[0]), s);
    Parts(Blank, after);
    Parts(InfoChar, word);
    Parts(Blank, tail);
    assert Take(Blank, tail) + "" == Take(Blank, tail);
    assert marker[0] == s[0];
    Glue(line, indent, s, marker, after, gap, word, info, tail);
    assert Pattern(line, indent, marker, gap, info, tail);
  }

  /** A line is a fence exactly when the pattern matches it somehow. */
  lemma MatchExactly(line: string)
    ensures Match(line).Some? <==>
            exists indent, marker, gap, info, tail :: Pattern(line, indent, marker, gap, info, tail)
  {
    if indent, marker, gap, info, tail :| Pattern(line, indent, marker, gap, info, tail) {
      MatchFromPattern(line, indent, marker, gap, info, tail);
    }
    if Match(line).Some? { FenceHasPattern(line); }
  }

  // ---- Blocks ---------------------------------------------------------------------

  /** The scanners below work with any recognizer of fence lines; the program's is `Match`. */
  type Recognizer = string -> Option<Fence>

  /** `start` is the number of the opening line, from one. */
  datatype Block = Block(start: nat, info: string, body: seq<string>)

  predicate Closes(fence: Recognizer, line: string, marker: Marker)
  {
    var m := fence(line);
    m.Some? && m.value.marker[0] == marker[0] && |m.value.marker| >= |marker| && m.value.info == ""
  }

  /** The first line from j that closes the block, or the end of the text. */
  function CloseAt(fence: Recognizer, lines: seq<string>, j: nat, marker: Marker): (k: nat)
    requires j <= |lines|
    ensures j <= k <= |lines|
    ensures forall i | j <= i < k :: !Closes(fence, lines[i], marker)
    ensures k < |lines| ==> Closes(fence, lines[k], marker)
    decreases |lines| - j
  {
    if j == |lines| || Closes(fence, lines[j], marker) then j else CloseAt(fence, lines, j + 1, marker)
  }

  function Blocks(fence: Recognizer, lines: seq<string>, i: nat): seq<Block>
    decreases |lines| - i
  {
    if i >= |lines| then []
    else
      var m := fence(lines[i]);
      if m.None? then Blocks(fence, lines, i + 1)
      else
        var k := CloseAt(fence, lines, i + 1, m.value.marker);
        [Block(i + 1, m.value.info, lines[i + 1..k])] + Blocks(fence, lines, k + 1)
  }

  method IterFences(text: string) returns (blocks: seq<Block>)
    ensures blocks == Blocks(Match, Text.SplitOn('\n', text), 0)
  {
    blocks := ScanBlocks(Match, Text.SplitOn('\n', text));
  }

  /** The blocks found so far, and those from line i on, are all the blocks. */
  ghost predicate Scanned(fence: Recognizer, lines: seq<string>, blocks: seq<Block>, i: nat) {
    blocks + Blocks(fence, lines, i) == Blocks(fence, lines, 0)
  }

  lemma ScanBegins(fence: Recognizer, lines: seq<string>)
    ensures Scanned(fence, lines, [], 0)
  {
  }

  /** One round of the outer loop without a fence. */
  lemma ScanPlain(fence: Recognizer, lines: seq<string>, blocks: seq<Block>, i: nat)
    requires i < |lines| && fence(lines[i]).None? && Scanned(fence, lines, blocks, i)
    ensures Scanned(fence, lines, blocks, i + 1)
  {
  }

  /** And with one. */
  lemma ScanFence(fence: Recognizer, lines: seq<string>, blocks: seq<Block>, i: nat, block: Block, k: nat)
    requires i < |lines| && fence(lines[i]).Some? && Scanned(fence, lines, blocks, i)
    requires k == CloseAt(fence, lines, i + 1, fence(lines[i]).value.marker)
    requires block == Block(i + 1, fence(lines[i]).value.info, lines[i + 1..k])
    ensures Scanned(fence, lines, blocks + [block], k + 1)
  {
    BlocksAtFence(fence, lines, i, block, k);
    OneMoreBlock(blocks, block, Blocks(fence, lines, k + 1), Blocks(fence, lines, i), Blocks(fence, lines, 0));
  }

  lemma BlocksAtFence(fence: Recognizer, lines: seq<string>, i: nat, block: Block, k: nat)
    requires i < |lines| && fence(lines[i]).Some?
    requires k == CloseAt(fence, lines, i + 1, fence(lines[i]).value.marker)
    requires block == Block(i + 1, fence(lines[i]).value.info, lines[i + 1..k])
    ensures Blocks(fence, lines, i) == [block] + Blocks(fence, lines, k + 1)
  {
  }

  lemma ScanEnds(fence: Recognizer, lines: seq<string>, blocks: seq<Block>, i: nat)
    requires i >= |lines| && Scanned(fence, lines, blocks, i)
    ensures blocks == Blocks(fence, lines, 0)
  {
  }

  lemma OneMoreBlock(blocks: seq<Block>, b: Block, rest: seq<Block>, from: seq<Block>, all: seq<Block>)
    requires from == [b] + rest && blocks + from == all
    ensures (blocks + [b]) + rest == all
  {
  }

  method ScanBlocks(fence: Recognizer, lines: seq<string>) returns (blocks: seq<Block>)
    ensures blocks == Blocks(fence, lines, 0)
  {
    blocks := [];
    var i := 0;
    ScanBegins(fence, lines);
    while i < |lines|
      invariant i <= |lines| + 1 && Scanned(fence, lines, blocks, i)
    {
      var m := fence(lines[i]);
      if m.Some? {
        var body, next := ScanBody(fence, lines, i + 1, m.value.marker);
        var block := Block(i + 1, m.value.info, body);
        ScanFence(fence, lines, blocks, i, block, next);
        blocks := blocks + [block];
        i := next;
      } else {
        ScanPlain(fence, lines, blocks, i);
      }
      i := i + 1;
    }
    ScanEnds(fence, lines, blocks, i);
  }

  /** The inner loop, from the line after an opening fence. */
  method ScanBody(fence: Recognizer, lines: seq<string>, start: nat, marker: Marker)
    returns (body: seq<string>, i: nat)
    requires start <= |lines|
    ensures i == CloseAt(fence, lines, start, marker) && body == lines[start..i]
  {
    body, i := [], start;
    while i < |lines| && !Closes(fence, lines[i], marker)
      invariant start <= i <= |lines| && body == lines[start..i]
      invariant CloseAt(fence, lines, start, marker) == CloseAt(fence, lines, i, marker)
    {
      body := body + [lines[i]];
      i := i + 1;
    }
  }

  // ---- Lines outside --------------------------------------------------------------

  datatype Numbered = Numbered(number: nat, line: string)

  /** The second scanner remembers the marker of the open block. */
  function Outside(fence: Recognizer, lines: seq<string>, i: nat, inside: Option<Marker>): seq<Numbered>
    decreases |lines| - i
  {
    if i >= |lines| then []
    else
      var m := fence(lines[i]);
      if m.None? then
        (if inside.None? then [Numbered(i + 1, lines[i])] else []) + Outside(fence, lines, i + 1, inside)
      else if inside.None? then Outside(fence, lines, i + 1, Some(m.value.marker))
      else if Closes(fence, lines[i], inside.value) then Outside(fence, lines, i + 1, None)
      else Outside(fence, lines, i + 1, inside)
  }

  method IterLinesOutsideFences(text: string) returns (numbered: seq<Numbered>)
    ensures numbered == Outside(Match, Text.SplitOn('\n', text), 0, None)
  {
    numbered := ScanOutside(Match, Text.SplitOn('\n', text));
  }

  method ScanOutside(fence: Recognizer, lines: seq<string>) returns (numbered: seq<Numbered>)
    ensures numbered == Outside(fence, lines, 0, None)
  {
    var inside: Option<Marker> := None;
    numbered := [];
    for i := 0 to |lines|
      invariant numbered + Outside(fence, lines, i, inside) == Outside(fence, lines, 0, None)
    {
      var m := fence(lines[i]);
      if m.Some? {
        var marker := m.value.marker;
        if inside.None? {
          inside := Some(marker);
        } else if marker[0] == inside.value[0] && |marker| >= |inside.value| && m.value.info == "" {
          inside := None;
        }
      } else if inside.None? {
        numbered := numbered + [Numbered(i + 1, lines[i])];
      }
    }
  }

  // ---- Agreement ------------------------------------------------------------------

  /** From the opening line to the closing line, or to the end of the text. */
  predicate Covers(b: Block, i: nat) {
    b.start >= 1 && b.start - 1 <= i <= b.start + |b.body|
  }

  lemma {:induction false} BlocksFrom(fence: Recognizer, lines: seq<string>, i: nat, b: Block)
    requires b in Blocks(fence, lines, i)
    ensures i < b.start && b.start + |b.body| <= |lines|
    decreases |lines| - i
  {
    var m := fence(lines[i]);
    if m.None? {
      BlocksFrom(fence, lines, i + 1, b);
    } else {
      var k := CloseAt(fence, lines, i + 1, m.value.marker);
      if b in Blocks(fence, lines, k + 1) { BlocksFrom(fence, lines, k + 1, b); }
    }
  }

  /** What a block is: an opening fence, the lines up to the first that closes it, and that
      line, unless the text ends before. */
  predicate WellFenced(fence: Recognizer, lines: seq<string>, b: Block) {
    && 1 <= b.start <= |lines| && b.start + |b.body| <= |lines|
    && var m := fence(lines[b.start - 1]);
    && m.Some? && b.info == m.value.info
    && b.body == lines[b.start..b.start + |b.body|]
    && (forall i | b.start <= i < b.start + |b.body| :: !Closes(fence, lines[i], m.value.marker))
    && (b.start + |b.body| < |lines| ==> Closes(fence, lines[b.start + |b.body|], m.value.marker))
  }

  lemma {:induction false} BlocksWellFenced(fence: Recognizer, lines: seq<string>, i: nat, b: Block)
    requires b in Blocks(fence, lines, i)
    ensures WellFenced(fence, lines, b)
    decreases |lines| - i
  {
    var m := fence(lines[i]);
    if m.None? {
      BlocksWellFenced(fence, lines, i + 1, b);
    } else {
      var k := CloseAt(fence, lines, i + 1, m.value.marker);
      if b in Blocks(fence, lines, k + 1) { BlocksWellFenced(fence, lines, k + 1, b); }
    }
  }

  ghost predicate OneCovers(blocks: seq<Block>, n: nat) {
    forall b, c | b in blocks && c in blocks && Covers(b, n) && Covers(c, n) :: b == c
  }

  lemma CoveredFrom(fence: Recognizer, lines: seq<string>, i: nat, n: nat)
    requires n < i
    ensures CoveredByNone(Blocks(fence, lines, i), n)
  {
    forall b | b in Blocks(fence, lines, i) ensures !Covers(b, n) { BlocksFrom(fence, lines, i, b); }
  }

  /** No line belongs to two blocks, and every fence line belongs to one. */
  lemma {:induction false} OneBlockPerLine(fence: Recognizer, lines: seq<string>, i: nat, n: nat)
    requires i <= n < |lines|
    ensures OneCovers(Blocks(fence, lines, i), n)
    ensures fence(lines[n]).Some? ==> !CoveredByNone(Blocks(fence, lines, i), n)
    decreases |lines| - i
  {
    var m := fence(lines[i]);
    if m.None? {
      if i < n { OneBlockPerLine(fence, lines, i + 1, n); } else { CoveredFrom(fence, lines, i + 1, n); }
    } else {
      var k := CloseAt(fence, lines, i + 1, m.value.marker);
      var first, rest := Block(i + 1, m.value.info, lines[i + 1..k]), Blocks(fence, lines, k + 1);
      assert Blocks(fence, lines, i) == [first] + rest && (Covers(first, n) <==> n <= k);
      OneOrRest(first, rest, n);
      if n > k { OneBlockPerLine(fence, lines, k + 1, n); } else { CoveredFrom(fence, lines, k + 1, n); }
    }
  }

  lemma {:induction false} InsideUntilClosed(fence: Recognizer, lines: seq<string>, j: nat, marker: Marker)
    requires j <= |lines|
    ensures Outside(fence, lines, j, Some(marker)) == Outside(fence, lines, CloseAt(fence, lines, j, marker) + 1, None)
    decreases |lines| - j
  {
    if j < |lines| && !Closes(fence, lines[j], marker) {
      InsideUntilClosed(fence, lines, j + 1, marker);
    }
  }

  predicate CoveredByNone(blocks: seq<Block>, n: nat) {
    forall b | b in blocks :: !Covers(b, n)
  }

  lemma OneOrRest(first: Block, rest: seq<Block>, n: nat)
    ensures CoveredByNone([first] + rest, n) <==> !Covers(first, n) && CoveredByNone(rest, n)
  {
    if CoveredByNone([first] + rest, n) {
      assert first in [first] + rest;
      forall b | b in rest ensures !Covers(b, n) {
        assert b in [first] + rest;
      }
    }
  }

  /** The second scanner yields exactly the lines outside all blocks of the first, with
      their numbers, whether or not the last block is closed. */
  lemma {:induction false} ScannersAgree(fence: Recognizer, lines: seq<string>, i: nat, x: Numbered)
    ensures x in Outside(fence, lines, i, None) <==>
            && i < x.number <= |lines| && x.line == lines[x.number - 1]
            && CoveredByNone(Blocks(fence, lines, i), x.number - 1)
    decreases |lines| - i
  {
    if i < |lines| {
      var m := fence(lines[i]);
      if m.None? {
        var y, rest := Numbered(i + 1, lines[i]), Outside(fence, lines, i + 1, None);
        assert Outside(fence, lines, i, None) == [y] + rest;
        assert x in [y] + rest <==> x == y || x in rest;
        assert x == Numbered(x.number, x.line);
        ScannersAgree(fence, lines, i + 1, x);
        CoveredFrom(fence, lines, i + 1, i);
      } else {
        var k := CloseAt(fence, lines, i + 1, m.value.marker);
        var first, rest := Block(i + 1, m.value.info, lines[i + 1..k]), Blocks(fence, lines, k + 1);
        InsideUntilClosed(fence, lines, i + 1, m.value.marker);
        ScannersAgree(fence, lines, k + 1, x);
        assert Outside(fence, lines, i, None) == Outside(fence, lines, k + 1, None);
        if i < x.number <= |lines| {
          assert Covers(first, x.number - 1) <==> x.number <= k + 1;
          OneOrRest(first, rest, x.number - 1);
        }
      }
    }
  }

  /** The lines come out in order. */
  lemma {:induction false} OutsideInOrder(fence: Recognizer, lines: seq<string>, i: nat, inside: Option<Marker>)
    ensures InOrder(Outside(fence, lines, i, inside), i)
    decreases |lines| - i
  {
    if i < |lines| {
      var m, out := fence(lines[i]), Outside(fence, lines, i, inside);
      OutsideInOrder(fence, lines, i + 1, None);
      OutsideInOrder(fence, lines, i + 1, inside);
      if m.Some? {
        OutsideInOrder(fence, lines, i + 1, Some(m.value.marker));
      } else {
        var first := if inside.None? then [Numbered(i + 1, lines[i])] else [];
        OneBefore(first, Outside(fence, lines, i + 1, inside), i);
      }
    }
  }

  ghost predicate InOrder(out: seq<Numbered>, i: nat) {
    && (forall x | x in out :: i < x.number)
    && forall a, b | 0 <= a < b < |out| :: out[a].number < out[b].number
  }

  lemma OneBefore(first: seq<Numbered>, rest: seq<Numbered>, i: nat)
    requires InOrder(rest, i + 1) && |first| <= 1 && forall x | x in first :: x.number == i + 1
    ensures InOrder(first + rest, i)
  {
    var out := first + rest;
    forall a, b | 0 <= a < b < |out| ensures out[a].number < out[b].number {
      var k := |first|;
      assert out[b] == rest[b - k] && rest[b - k] in rest;
      if a >= k {
        assert out[a] == rest[a - k] && rest[a - k].number < rest[b - k].number;
      } else {
        assert out[a] == first[a] && first[a] in first;
      }
    }
  }

  // ---- Compared with section 4.5 of CommonMark ------------------------------------

  /** Up to three spaces. */
  predicate Shallow(indent: string) {
    |indent| <= 3 && All(Same(' '), indent)
  }

  predicate FenceRun(marker: string) {
    |marker| >= 3 && (marker[0] == '`' || marker[0] == '~') && All(Same(marker[0]), marker)
  }

  /** An opening fence: shallow indentation, a whole run, and any text after it, without
      backticks when the run is one of backticks. */
  predicate Opens(line: string, indent: string, marker: string, rest: string) {
    && line == indent + marker + rest
    && Shallow(indent) && FenceRun(marker) && (rest == "" || rest[0] != marker[0])
    && (marker[0] == '`' ==> '`' !in rest)
  }

  /** A closing fence for a block opened by the marker: nothing but blanks after the run. */
  predicate ClosesBlock(line: string, indent: string, run: string, tail: string, marker: Marker) {
    && line == indent + run + tail
    && Shallow(indent) && FenceRun(run) && run[0] == marker[0] && |run| >= |marker| && All(Blank, tail)
  }

  /** Blanks, at most one word without white space and backticks, and blanks. */
  ghost predicate OneWord(rest: string) {
    exists gap, info, tail ::
      rest == gap + info + tail && All(Blank, gap) && All(InfoChar, info) && All(Blank, tail)
  }

  lemma WordExactly(rest: string)
    ensures Word(Drop(Blank, rest)).Some? <==> OneWord(rest)
  {
    var word := Drop(Blank, rest);
    Parts(Blank, rest);
    if Word(word).Some? {
      var info, tail := Take(InfoChar, word), Drop(InfoChar, word);
      Parts(InfoChar, word);
      Parts(Blank, tail);
      assert Take(Blank, tail) + "" == Take(Blank, tail);
      assert Take(Blank, rest) + (info + tail) == Take(Blank, rest) + info + tail;
    }
    if gap, info, tail :| rest == gap + info + tail && All(Blank, gap) && All(InfoChar, info) && All(Blank, tail) {
      WordFound(rest, gap, info, tail);
    }
  }

  lemma WordFound(rest: string, gap: string, info: string, tail: string)
    requires rest == gap + info + tail && All(Blank, gap) && All(InfoChar, info) && All(Blank, tail)
    ensures Word(Drop(Blank, rest)) == Some(info)
  {
    if info == "" {
      assert rest == (gap + tail) + "";
      PartsOf(Blank, gap + tail, "");
      WordOf("", "");
      assert "" + "" == "";
    } else {
      assert rest == gap + (info + tail);
      PartsOf(Blank, gap, info + tail);
      WordOf(info, tail);
    }
  }

  /** Taking a line apart: indentation, run and rest. */
  lemma MatchOfParts(line: string, indent: string, marker: string, rest: string)
    requires line == indent + marker + rest && All(Blank, indent)
    requires FenceRun(marker) && (rest == "" || rest[0] != marker[0])
    ensures Match(line).Some? <==> OneWord(rest)
    ensures Match(line).Some? ==> Match(line).value.marker == marker
    ensures Match(line).Some? ==> Word(Drop(Blank, rest)) == Some(Match(line).value.info)
    ensures Take(Blank, line) == indent
  {
    var s := marker + rest;
    assert line == indent + s && s[0] == marker[0];
    PartsOf(Blank, indent, s);
    PartsOf(Same(marker[0]), marker, rest);
    WordExactly(rest);
  }

  lemma ShallowIsBlank(indent: string)
    requires Shallow(indent)
    ensures All(Blank, indent)
  {
    forall i | 0 <= i < |indent| ensures Blank(indent[i]) {
      assert Same(' ')(indent[i]);
    }
  }

  /** An opening fence of CommonMark is one for the scanners exactly when at most one word,
      without backticks, follows the run; then both see the same run. */
  lemma CommonMarkFenceMatches(line: string, indent: string, marker: string, rest: string)
    requires Opens(line, indent, marker, rest)
    ensures Match(line).Some? <==> OneWord(rest)
    ensures Match(line).Some? ==> Match(line).value.marker == marker
  {
    ShallowIsBlank(indent);
    MatchOfParts(line, indent, marker, rest);
  }

  lemma RunParts(s: string) returns (marker: Marker, rest: string)
    requires s != "" && (s[0] == '`' || s[0] == '~') && MatchRun(s).Some?
    ensures s == marker + rest && marker == MatchRun(s).value.marker
    ensures FenceRun(marker) && (rest == "" || rest[0] != marker[0])
    ensures Word(Drop(Blank, rest)) == Some(MatchRun(s).value.info)
  {
    marker, rest := Take(Same(s[0]), s), Drop(Same(s[0]), s);
    Parts(Same(s[0]), s);
    DropStops(Same(s[0]), s);
    assert marker[0] == s[0];
  }

  lemma Regrouped(line: string, indent: string, s: string, marker: string, rest: string)
    requires line == indent + s && s == marker + rest
    ensures line == indent + marker + rest
  {
  }

  /** How a fence line of the scanners is made up. */
  lemma MatchedParts(line: string) returns (indent: string, marker: Marker, rest: string)
    requires Match(line).Some?
    ensures line == indent + marker + rest && indent == Take(Blank, line) && All(Blank, indent)
    ensures marker == Match(line).value.marker && FenceRun(marker) && (rest == "" || rest[0] != marker[0])
    ensures Word(Drop(Blank, rest)) == Some(Match(line).value.info)
  {
    var s := Drop(Blank, line);
    indent := Take(Blank, line);
    Parts(Blank, line);
    marker, rest := RunParts(s);
    Regrouped(line, indent, s, marker, rest);
  }

  lemma {:induction false} DropStops(p: char -> bool, s: string)
    ensures Drop(p, s) == "" || !p(Drop(p, s)[0])
  {
    if s != "" && p(s[0]) { DropStops(p, s[1..]); }
  }

  lemma OneWordHasNoBacktick(rest: string)
    requires OneWord(rest)
    ensures '`' !in rest
  {
    var gap, info, tail :|
      rest == gap + info + tail && All(Blank, gap) && All(InfoChar, info) && All(Blank, tail);
  }

  ghost predicate OpensCommonMark(line: string) {
    exists indent, marker, rest :: Opens(line, indent, marker, rest)
  }

  /** A fence line of the scanners is an opening fence of CommonMark exactly when it is
      indented by no tab and at most three spaces. */
  lemma MatchOpensCommonMark(line: string)
    requires Match(line).Some?
    ensures OpensCommonMark(line) <==> Shallow(Take(Blank, line))
  {
    var indent, marker, rest := MatchedParts(line);
    WordExactly(rest);
    OneWordHasNoBacktick(rest);
    if Shallow(indent) { assert Opens(line, indent, marker, rest); }
    if i, m, r :| Opens(line, i, m, r) {
      ShallowIsBlank(i);
      MatchOfParts(line, i, m, r);
    }
  }

  /** So the scanners and CommonMark disagree on a line in exactly two ways: it is indented
      too far for CommonMark, or what follows the run is too much for the scanners. */
  lemma AgreesExactly(line: string)
    ensures (Match(line).Some? <==> OpensCommonMark(line)) <==>
            && (Match(line).Some? ==> Shallow(Take(Blank, line)))
            && (forall indent, marker, rest | Opens(line, indent, marker, rest) :: OneWord(rest))
  {
    if Match(line).Some? { MatchOpensCommonMark(line); }
    forall indent, marker, rest | Opens(line, indent, marker, rest)
      ensures Match(line).Some? <==> OneWord(rest)
    {
      CommonMarkFenceMatches(line, indent, marker, rest);
    }
  }

  /** Closing fences differ in their indentation alone. */
  lemma ClosesExactly(line: string, marker: Marker)
    requires FenceRun(marker)
    ensures (exists indent, run, tail :: ClosesBlock(line, indent, run, tail, marker)) <==>
            Closes(Match, line, marker) && Shallow(Take(Blank, line))
  {
    if indent, run, tail :| ClosesBlock(line, indent, run, tail, marker) {
      ShallowIsBlank(indent);
      assert tail == "" || Blank(tail[0]);
      assert tail == tail + "" + "" && All(InfoChar, "") && All(Blank, "");
      assert OneWord(tail);
      MatchOfParts(line, indent, run, tail);
      WordFound(tail, tail, "", "");
    }
    if Closes(Match, line, marker) && Shallow(Take(Blank, line)) {
      var indent, run, rest := MatchedParts(line);
      BlankRest(rest);
      assert ClosesBlock(line, indent, run, rest, marker);
    }
  }

  lemma BlankRest(rest: string)
    requires Word(Drop(Blank, rest)) == Some("")
    ensures All(Blank, rest)
  {
    var word := Drop(Blank, rest);
    Parts(Blank, rest);
    Parts(InfoChar, word);
    Parts(Blank, Drop(InfoChar, word));
    DropStops(Blank, rest);
    assert Take(InfoChar, word) == "" && Drop(InfoChar, word) == word;
  }

  /** Two words, however they are set apart, make the line no fence for the scanners. */
  lemma SecondWordIsNoFence(line: string, indent: string, marker: string, gap: string, word: string,
                            blanks: string, more: string)
    requires line == indent + marker + (gap + word + blanks + more) && All(Blank, indent) && FenceRun(marker)
    requires word != "" && All(InfoChar, word) && All(Blank, gap) && (gap == "" ==> word[0] != marker[0])
    requires blanks != "" && All(Blank, blanks) && more != "" && !Blank(more[0])
    ensures Match(line).None?
  {
    var rest := gap + word + blanks + more;
    var after := word + (blanks + more);
    assert rest == gap + after && (rest[0] == if gap != "" then gap[0] else word[0]);
    assert after[0] == word[0] && (blanks + more)[0] == blanks[0];
    PartsOf(Blank, gap, after);
    PartsOf(InfoChar, word, blanks + more);
    PartsOf(Blank, blanks, more);
    assert Word(after).None?;
    WordExactly(rest);
    MatchOfParts(line, indent, marker, rest);
  }

  // One line of each kind on which the two disagree.

  lemma DeepFence(indent: string, marker: string)
    requires indent == "    " && marker == "```"
    ensures Match(indent + marker).Some? && !OpensCommonMark(indent + marker)
  {
    var line := indent + marker;
    assert line == indent + marker + "" && "" == "" + "" + "";
    assert OneWord("");
    MatchOfParts(line, indent, marker, "");
    MatchOpensCommonMark(line);
  }

  lemma TwoWords(marker: string, rest: string)
    requires marker == "```" && rest == "a b"
    ensures Match(marker + rest).None? && OpensCommonMark(marker + rest)
  {
    var line := marker + rest;
    assert line == "" + marker + rest && rest == "" + "a" + " " + "b";
    assert line == "" + marker + ("" + "a" + " " + "b");
    SecondWordIsNoFence(line, "", marker, "", "a", " ", "b");
    assert Opens(line, "", marker, rest);
  }

  lemma BacktickInWord(marker: string, rest: string)
    requires marker == "~~~" && rest == "a`b"
    ensures Match(marker + rest).None? && OpensCommonMark(marker + rest)
  {
    var line := marker + rest;
    assert line == "" + marker + rest && rest[1] == '`';
    assert Opens(line, "", marker, rest);
    if OneWord(rest) { OneWordHasNoBacktick(rest); }
    CommonMarkFenceMatches(line, "", marker, rest);
  }
}
