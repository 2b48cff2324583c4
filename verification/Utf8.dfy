/** UTF-8 (RFC 3629) over Unicode scalar values: Rust's `str` is the `string` here,
    its bytes are `Encode`, and `from_utf8` is the strict `Decode`. */
module Utf8 {
  import opened Wrappers

  type byte = x: int | 0 <= x < 256

  function EncodeChar(c: char): (b: seq<byte>)
    ensures 1 <= |b| <= 4
  {
    var n := c as int;
    if n < 0x80 then [n]
    else if n < 0x800 then [0xC0 + n / 64, 0x80 + n % 64]
    else if n < 0x10000 then [0xE0 + n / 4096, 0x80 + n / 64 % 64, 0x80 + n % 64]
    else [0xF0 + n / 262144, 0x80 + n / 4096 % 64, 0x80 + n / 64 % 64, 0x80 + n % 64]
  }

  function Encode(s: string): seq<byte> {
    if s == [] then [] else EncodeChar(s[0]) + Encode(s[1..])
  }

  predicate Continuation(b: byte) {
    0x80 <= b < 0xC0
  }

  /** The six payload bits of a continuation byte. */
  function Bits(b: byte): (r: int)
    requires Continuation(b)
    ensures 0 <= r < 64
  {
    b - 0x80
  }

  /** The first scalar value and its width; overlong forms and surrogates are refused. */
  function DecodeChar(b: seq<byte>): (r: Option<(char, nat)>)
    requires b != []
    ensures r.Some? ==> 1 <= r.value.1 <= |b|
  {
    var n: int := b[0];
    if n < 0x80 then Some((n as char, 1))
    else if 0xC2 <= n < 0xE0 && |b| >= 2 && Continuation(b[1]) then
      Some((((n - 0xC0) * 64 + Bits(b[1])) as char, 2))
    else if 0xE0 <= n < 0xF0 && |b| >= 3 && Continuation(b[1]) && Continuation(b[2]) then
      var p := (n - 0xE0) * 4096 + Bits(b[1]) * 64 + Bits(b[2]);
      if p < 0x800 || 0xD800 <= p < 0xE000 then None else Some((p as char, 3))
    else if 0xF0 <= n < 0xF5 && |b| >= 4
            && Continuation(b[1]) && Continuation(b[2]) && Continuation(b[3]) then
      var p := (n - 0xF0) * 262144 + Bits(b[1]) * 4096 + Bits(b[2]) * 64 + Bits(b[3]);
      if p < 0x10000 || p > 0x10FFFF then None else Some((p as char, 4))
    else None
  }

  function Decode(b: seq<byte>): Option<string>
    decreases |b|
  {
    if b == [] then Some("")
    else
      var (c, n) :- DecodeChar(b);
      var rest :- Decode(b[n..]);
      Some([c] + rest)
  }

  lemma Digits64(n: nat)
    ensures n == n / 64 * 64 + n % 64
    ensures n == n / 4096 * 4096 + n / 64 % 64 * 64 + n % 64
    ensures n == n / 262144 * 262144 + n / 4096 % 64 * 4096 + n / 64 % 64 * 64 + n % 64
  {
    assert n / 4096 == n / 64 / 64 && n / 262144 == n / 64 / 64 / 64;
  }

  lemma DecodeEncodeChar(c: char, rest: seq<byte>)
    ensures DecodeChar(EncodeChar(c) + rest) == Some((c, |EncodeChar(c)|))
  {
    var n := c as int;
    var e := EncodeChar(c);
    var b := e + rest;
    Digits64(n);
    assert forall i | 0 <= i < |e| :: b[i] == e[i];
  }

  lemma {:induction false} DecodeEncode(s: string)
    ensures Decode(Encode(s)) == Some(s)
  {
    if s != [] {
      DecodeEncodeChar(s[0], Encode(s[1..]));
      assert Encode(s)[|EncodeChar(s[0])|..] == Encode(s[1..]);
      DecodeEncode(s[1..]);
      assert s == [s[0]] + s[1..];
    }
  }

  lemma Joined(a: nat, b: nat, n: nat)
    requires b < 64 && n == a * 64 + b
    ensures n / 64 == a && n % 64 == b
  {
  }

  lemma DecodedChar(b: seq<byte>)
    requires b != [] && DecodeChar(b).Some?
    ensures b[..DecodeChar(b).value.1] == EncodeChar(DecodeChar(b).value.0)
  {
    var (c, n) := DecodeChar(b).value;
    var p := c as int;
    Digits64(p);
    if n == 2 {
      Joined(b[0] as int - 0xC0, Bits(b[1]), p);
    } else if n == 3 {
      var q := (b[0] as int - 0xE0) * 64 + Bits(b[1]);
      Joined(b[0] as int - 0xE0, Bits(b[1]), q);
      Joined(q, Bits(b[2]), p);
    } else if n == 4 {
      var q := (b[0] as int - 0xF0) * 64 + Bits(b[1]);
      var r := q * 64 + Bits(b[2]);
      Joined(b[0] as int - 0xF0, Bits(b[1]), q);
      Joined(q, Bits(b[2]), r);
      Joined(r, Bits(b[3]), p);
    }
  }

  /** The decoder accepts the encodings and nothing else: no overlong form, no surrogate. */
  lemma {:induction false} DecodeExactly(b: seq<byte>, s: string)
    ensures Decode(b) == Some(s) <==> b == Encode(s)
    decreases |b|
  {
    if b == Encode(s) { DecodeEncode(s); }
    if Decode(b) == Some(s) && b != [] {
      var (c, n) := DecodeChar(b).value;
      DecodedChar(b);
      DecodeExactly(b[n..], s[1..]);
      assert b == b[..n] + b[n..];
    }
  }

  lemma EncodeInjective(s: string, t: string)
    requires Encode(s) == Encode(t)
    ensures s == t
  {
    DecodeEncode(s);
    DecodeEncode(t);
  }

  lemma {:induction false} EncodeConcat(s: string, t: string)
    ensures Encode(s + t) == Encode(s) + Encode(t)
  {
    if s == [] {
      assert s + t == t;
    } else {
      EncodeConcat(s[1..], t);
      assert (s + t)[1..] == s[1..] + t;
    }
  }
}
