/** The order of byte strings, and of texts by their UTF-8 bytes. */
module ByteOrder {
  import opened Ordering
  import opened PortablePaths
  import opened Utf8

  /** At place n the first string has ended, or has the smaller byte; before it they agree. */
  predicate DiffersAt(a: seq<byte>, b: seq<byte>, n: nat) {
    n <= |a| && n < |b| && a[..n] == b[..n] && (n == |a| || a[n] < b[n])
  }

  ghost predicate BytesBefore(a: seq<byte>, b: seq<byte>) {
    exists n: nat :: DiffersAt(a, b, n)
  }

  /** Texts in the order of their UTF-8 bytes. */
  ghost predicate TextBefore(s: string, t: string) {
    BytesBefore(Encode(s), Encode(t))
  }

  lemma BeforeOnce(a: seq<byte>, b: seq<byte>)
    requires BytesBefore(a, b)
    ensures a != b && !BytesBefore(b, a)
  {
    var n: nat :| DiffersAt(a, b, n);
    forall m: nat ensures !DiffersAt(b, a, m) {
      if m < n {
        SameByte(a, b, n, m);
      } else if n < m && m <= |b| && m < |a| && b[..m] == a[..m] {
        SameByte(b, a, m, n);
      }
    }
  }

  lemma SameByte(a: seq<byte>, b: seq<byte>, n: nat, m: nat)
    requires m < n <= |a| && n <= |b| && a[..n] == b[..n]
    ensures a[m] == b[m]
  {
    assert a[..n][m] == b[..n][m];
  }

  lemma TwoDigits(m: nat, n: nat)
    requires m < n
    ensures m / 64 < n / 64 || (m / 64 == n / 64 && m % 64 < n % 64)
  {
  }

  /** A smaller character has the smaller bytes, and neither code is part of the other. */
  lemma CharBefore(c: char, d: char) returns (n: nat)
    requires c < d
    ensures var a, b := EncodeChar(c), EncodeChar(d);
            n < |a| && n < |b| && a[..n] == b[..n] && a[n] < b[n]
  {
    var a, b := EncodeChar(c), EncodeChar(d);
    var i, j := c as int, d as int;
    TwoDigits(i, j);
    if |a| < |b| || a[0] != b[0] {
      LeadingByte(c, d);
      n := 0;
    } else {
      n := SameLead(c, d);
    }
  }

  lemma LeadingByte(c: char, d: char)
    requires c < d
    ensures EncodeChar(c)[0] <= EncodeChar(d)[0]
    ensures |EncodeChar(c)| != |EncodeChar(d)| ==> EncodeChar(c)[0] < EncodeChar(d)[0]
    ensures |EncodeChar(c)| <= |EncodeChar(d)|
  {
    var i, j := c as int, d as int;
    assert i / 64 <= j / 64 && i / 4096 <= j / 4096 && i / 262144 <= j / 262144;
  }

  lemma SameLead(c: char, d: char) returns (n: nat)
    requires c < d && |EncodeChar(c)| == |EncodeChar(d)| && EncodeChar(c)[0] == EncodeChar(d)[0]
    ensures var a, b := EncodeChar(c), EncodeChar(d);
            n < |a| && n < |b| && a[..n] == b[..n] && a[n] < b[n]
  {
    var a, b := EncodeChar(c), EncodeChar(d);
    var i, j := c as int, d as int;
    Digits64(i);
    Digits64(j);
    TwoDigits(i, j);
    if |a| == 2 {
      n := 1;
    } else if |a| == 3 {
      assert i / 4096 == j / 4096;
      n := if a[1] < b[1] then 1 else 2;
    } else {
      assert |a| == 4 && i / 262144 == j / 262144;
      n := if a[1] < b[1] then 1 else if a[2] < b[2] then 2 else 3;
    }
  }

  lemma Shifted(p: seq<byte>, a: seq<byte>, b: seq<byte>, n: nat)
    requires DiffersAt(a, b, n)
    ensures DiffersAt(p + a, p + b, |p| + n)
  {
    assert (p + a)[..|p| + n] == p + a[..n] && (p + b)[..|p| + n] == p + b[..n];
  }

  lemma Extended(a: seq<byte>, b: seq<byte>, n: nat, s: seq<byte>, t: seq<byte>)
    requires n < |a| && n < |b| && a[..n] == b[..n] && a[n] < b[n]
    ensures DiffersAt(a + s, b + t, n)
  {
    assert (a + s)[..n] == a[..n] && (b + t)[..n] == b[..n];
  }

  /** Code point order is byte order. */
  lemma {:induction false} CodesBefore(s: string, t: string)
    requires Less(Codes(s), Codes(t))
    ensures TextBefore(s, t)
  {
    if s == "" {
      assert DiffersAt(Encode(s), Encode(t), 0);
    } else {
      var a, b := EncodeChar(s[0]), EncodeChar(t[0]);
      if s[0] == t[0] {
        assert Codes(s)[1..] == Codes(s[1..]) && Codes(t)[1..] == Codes(t[1..]);
        CodesBefore(s[1..], t[1..]);
        var n: nat :| DiffersAt(Encode(s[1..]), Encode(t[1..]), n);
        Shifted(a, Encode(s[1..]), Encode(t[1..]), n);
      } else {
        var n := CharBefore(s[0], t[0]);
        Extended(a, b, n, Encode(s[1..]), Encode(t[1..]));
      }
    }
  }

  lemma TextOrder(s: string, t: string)
    ensures Less(Codes(s), Codes(t)) <==> TextBefore(s, t)
  {
    if Less(Codes(s), Codes(t)) { CodesBefore(s, t); }
    if TextBefore(s, t) {
      BeforeOnce(Encode(s), Encode(t));
      LessTotal(Codes(s), Codes(t));
      if Less(Codes(t), Codes(s)) { CodesBefore(t, s); }
      if Codes(s) == Codes(t) { CodesInjective(s, t); }
    }
  }
}
