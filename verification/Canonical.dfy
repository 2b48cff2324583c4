/** Canonical JSON: NFC strings, no duplicate keys, safe integers, and the byte form of
    RFC 8785. Fractions and exponents are outside this model. */
module Canonical {
  import opened JsonText
  import opened Libraries
  import opened Ordering
  import opened Wrappers
  import PortablePaths
  import Utf8

  const MAX_SAFE_INTEGER := 9_007_199_254_740_991
  const MAX_DEPTH := 128
  const MAX_JSON_BYTES := 16 * 1024 * 1024

  datatype Value =
    | Null
    | Bool(flag: bool)
    | Int(n: int)
    | Str(text: string)
    | Arr(items: seq<Value>)
    | Obj(fields: map<string, Value>)

  // ---- Key orders -----------------------------------------------------------------

  /** The UTF-16 code units of a string. */
  function Utf16(s: string): seq<int> {
    if s == "" then []
    else
      var n := s[0] as int;
      (if n < 0x10000 then [n] else [0xD800 + (n - 0x10000) / 0x400, 0xDC00 + (n - 0x10000) % 0x400])
      + Utf16(s[1..])
  }

  /** Where serde_json keeps keys (byte order, which is code point order) and where RFC 8785
      section 3.2.3 puts them. */
  datatype KeyOrder = ByCode | ByUnit {
    function Key(k: string): seq<int> {
      match this case ByCode => PortablePaths.Codes(k) case ByUnit => Utf16(k)
    }
  }

  function KeyOf(order: KeyOrder): string -> seq<int> {
    (k: string) => order.Key(k)
  }

  lemma {:induction false} Utf16Injective(s: string, t: string)
    requires Utf16(s) == Utf16(t)
    ensures s == t
  {
    if s != "" && t != "" {
      var m, n := s[0] as int, t[0] as int;
      assert Utf16(s)[0] == Utf16(t)[0];
      if m < 0x10000 {
        assert Utf16(s)[1..] == Utf16(s[1..]);
        assert n < 0x10000;
        assert Utf16(t)[1..] == Utf16(t[1..]);
      } else {
        assert n >= 0x10000;
        assert Utf16(s)[1] == Utf16(t)[1];
        assert Utf16(s)[2..] == Utf16(s[1..]) && Utf16(t)[2..] == Utf16(t[1..]);
        assert m - 0x10000 == (m - 0x10000) / 0x400 * 0x400 + (m - 0x10000) % 0x400;
        assert n - 0x10000 == (n - 0x10000) / 0x400 * 0x400 + (n - 0x10000) % 0x400;
      }
      Utf16Injective(s[1..], t[1..]);
      assert s == [s[0]] + s[1..] && t == [t[0]] + t[1..];
    }
  }

  lemma KeysDiffer(order: KeyOrder, j: string, k: string)
    requires j != k
    ensures Less(order.Key(j), order.Key(k)) || Less(order.Key(k), order.Key(j))
    ensures !(Less(order.Key(j), order.Key(k)) && Less(order.Key(k), order.Key(j)))
  {
    if order.Key(j) == order.Key(k) {
      match order
      case ByCode => PortablePaths.CodesInjective(j, k);
      case ByUnit => Utf16Injective(j, k);
    }
    LessTotal(order.Key(j), order.Key(k));
    if Less(order.Key(j), order.Key(k)) && Less(order.Key(k), order.Key(j)) {
      LessTransitive(order.Key(j), order.Key(k), order.Key(j));
      LessIrreflexive(order.Key(j));
    }
  }

  predicate Least(order: KeyOrder, ks: set<string>, k: string) {
    k in ks && forall j | j in ks :: j == k || Less(order.Key(k), order.Key(j))
  }

  lemma {:induction false} LeastExists(order: KeyOrder, ks: set<string>)
    requires ks != {}
    ensures exists k :: Least(order, ks, k)
  {
    var k :| k in ks;
    if ks == {k} {
      assert Least(order, ks, k);
    } else {
      LeastExists(order, ks - {k});
      var l :| Least(order, ks - {k}, l);
      KeysDiffer(order, k, l);
      if Less(order.Key(k), order.Key(l)) {
        forall j | j in ks ensures j == k || Less(order.Key(k), order.Key(j)) {
          if j != k && j != l { LessTransitive(order.Key(k), order.Key(l), order.Key(j)); }
        }
        assert Least(order, ks, k);
      } else {
        assert Least(order, ks, l);
      }
    }
  }

  lemma LeastUnique(order: KeyOrder, ks: set<string>)
    ensures forall j, k | Least(order, ks, j) && Least(order, ks, k) :: j == k
  {
    forall j, k | Least(order, ks, j) && Least(order, ks, k) ensures j == k {
      if j != k { KeysDiffer(order, j, k); }
    }
  }

  /** The keys of an object in order. */
  function Ordered(order: KeyOrder, ks: set<string>): (r: seq<string>)
    ensures |r| == |ks| && forall k :: k in r <==> k in ks
  {
    if ks == {} then []
    else
      LeastExists(order, ks);
      LeastUnique(order, ks);
      var k :| k in ks && Least(order, ks, k);
      [k] + Ordered(order, ks - {k})
  }

  lemma {:induction false} OrderedIncreasing(order: KeyOrder, ks: set<string>)
    ensures Increasing(KeyOf(order), Ordered(order, ks))
  {
    if ks != {} {
      var r := Ordered(order, ks);
      OrderedIncreasing(order, ks - {r[0]});
      forall i, j | 0 <= i < j < |r| ensures Less(order.Key(r[i]), order.Key(r[j])) {
        assert r[1..] == Ordered(order, ks - {r[0]});
        if i > 0 {
          assert r[i] == r[1..][i - 1] && r[j] == r[1..][j - 1];
          assert Less(KeyOf(order)(r[1..][i - 1]), KeyOf(order)(r[1..][j - 1]));
        } else {
          assert r[j] in r[1..];
        }
      }
    }
  }

  // ---- Writing --------------------------------------------------------------------

  function RawOf(order: KeyOrder, v: Value): Raw
    decreases v, 1, 0
  {
    match v
    case Null => RNull
    case Bool(flag) => RBool(flag)
    case Int(n) => RInt(n)
    case Str(text) => RString(text)
    case Arr(items) => RArray(RawItems(order, items))
    case Obj(fields) => RObject(RawMembers(order, v, Ordered(order, fields.Keys)))
  }

  function RawItems(order: KeyOrder, items: seq<Value>): (r: seq<Raw>)
    ensures |r| == |items|
    decreases items, 0, 0
  {
    if items == [] then [] else [RawOf(order, items[0])] + RawItems(order, items[1..])
  }

  function RawMembers(order: KeyOrder, v: Value, ks: seq<string>): (r: seq<Member>)
    requires v.Obj? && forall k | k in ks :: k in v.fields
    ensures |r| == |ks|
    decreases v, 0, |ks|
  {
    if ks == [] then []
    else
      assert ks[0] in v.fields;
      [Member(ks[0], RawOf(order, v.fields[ks[0]]))] + RawMembers(order, v, ks[1..])
  }

  function Serialize(order: KeyOrder, v: Value): seq<Utf8.byte> {
    Utf8.Encode(Print(RawOf(order, v)))
  }

  // ---- Normal forms ---------------------------------------------------------------

  function Normalize(lib: Libraries, text: string): Option<string> {
    if BOM in text then None else Some(lib.nfc(text))
  }

  predicate SafeInteger(n: int) {
    -MAX_SAFE_INTEGER <= n <= MAX_SAFE_INTEGER
  }

  /** Normalised keys must stay apart. */
  predicate KeysStayApart(lib: Libraries, ks: set<string>) {
    forall j, k | j in ks && k in ks && lib.nfc(j) == lib.nfc(k) :: j == k
  }

  /** The normal form of a value, when it has one: no member order is involved. */
  function Normal(lib: Libraries, v: Value, depth: nat): (r: Option<Value>)
    ensures v.Obj? && r.Some? ==>
              && r.value.Obj? && KeysStayApart(lib, v.fields.Keys)
              && (forall k | k in v.fields ::
                    && Normalize(lib, k).Some? && lib.nfc(k) in r.value.fields
                    && Normal(lib, v.fields[k], depth + 1) == Some(r.value.fields[lib.nfc(k)]))
              && (forall x | x in r.value.fields :: exists k :: k in v.fields && lib.nfc(k) == x)
  {
    if depth > MAX_DEPTH then None
    else
      match v
      case Null => Some(v)
      case Bool(_) => Some(v)
      case Int(n) => if SafeInteger(n) then Some(v) else None
      case Str(text) => var text :- Normalize(lib, text); Some(Str(text))
      case Arr(items) => var items :- NormalItems(lib, items, depth + 1); Some(Arr(items))
      case Obj(fields) =>
        if && (forall k | k in fields ::
                 Normalize(lib, k).Some? && Normal(lib, fields[k], depth + 1).Some?)
           && KeysStayApart(lib, fields.Keys)
        then Some(Obj(map k | k in fields :: lib.nfc(k) := Normal(lib, fields[k], depth + 1).value))
        else None
  }

  function NormalItems(lib: Libraries, items: seq<Value>, depth: nat): (r: Option<seq<Value>>)
    ensures r.Some? ==> |r.value| == |items|
  {
    if items == [] then Some([])
    else
      var first :- Normal(lib, items[0], depth);
      var rest :- NormalItems(lib, items[1..], depth);
      Some([first] + rest)
  }

  // ---- Decoding -------------------------------------------------------------------

  function Decode(lib: Libraries, raw: Raw, depth: nat): Option<Value> {
    if depth > MAX_DEPTH then None
    else
      match raw
      case RNull => Some(Null)
      case RBool(flag) => Some(Bool(flag))
      case RInt(n) => if SafeInteger(n) then Some(Int(n)) else None
      case RString(text) => var text :- Normalize(lib, text); Some(Str(text))
      case RArray(items) => var items :- DecodeItems(lib, items, depth + 1); Some(Arr(items))
      case RObject(members) => var fields :- DecodeMembers(lib, members, depth + 1); Some(Obj(fields))
  }

  function DecodeItems(lib: Libraries, items: seq<Raw>, depth: nat): Option<seq<Value>> {
    if items == [] then Some([])
    else
      var first :- Decode(lib, items[0], depth);
      var rest :- DecodeItems(lib, items[1..], depth);
      Some([first] + rest)
  }

  /** Members are inserted one after the other; a key that is already there is refused. */
  function DecodeMembers(lib: Libraries, members: seq<Member>, depth: nat): Option<map<string, Value>> {
    if members == [] then Some(map[])
    else
      var last := members[|members| - 1];
      var fields :- DecodeMembers(lib, members[..|members| - 1], depth);
      var key :- Normalize(lib, last.key);
      if key in fields then None
      else
        var value :- Decode(lib, last.value, depth);
        Some(fields[key := value])
  }

  lemma {:induction false} RefusedEarly(lib: Libraries, members: seq<Member>, depth: nat, i: nat)
    requires i <= |members| && DecodeMembers(lib, members[..i], depth).None?
    ensures DecodeMembers(lib, members, depth).None?
    decreases |members|
  {
    if i == |members| {
      assert members[..i] == members;
    } else {
      var init := members[..|members| - 1];
      assert init[..i] == members[..i];
      RefusedEarly(lib, init, depth, i);
    }
  }

  /** The loop over the members of an object. */
  method DecodeObject(lib: Libraries, members: seq<Member>, depth: nat) returns (r: Option<map<string, Value>>)
    ensures r == DecodeMembers(lib, members, depth)
  {
    var fields: map<string, Value> := map[];
    for i := 0 to |members|
      invariant DecodeMembers(lib, members[..i], depth) == Some(fields)
    {
      var m := members[i];
      assert members[..i + 1][..i] == members[..i] && members[..i + 1][i] == m;
      var key := Normalize(lib, m.key);
      var value := Decode(lib, m.value, depth);
      if key.None? || key.value in fields || value.None? {
        RefusedEarly(lib, members, depth, i + 1);
        return None;
      }
      fields := fields[key.value := value.value];
    }
    assert members[..|members|] == members;
    return Some(fields);
  }

  function Parse(lib: Libraries, bytes: seq<Utf8.byte>): Option<Value> {
    if |bytes| > MAX_JSON_BYTES then None
    else
      var text :- Utf8.Decode(bytes);
      var raw :- Read(text);
      Decode(lib, raw, 0)
  }

  function Bytes(lib: Libraries, v: Value): Option<seq<Utf8.byte>> {
    var n :- Parse(lib, Serialize(ByCode, v));
    Some(Serialize(ByUnit, n))
  }

  // ---- Texts of a value -----------------------------------------------------------

  function Keys(ms: seq<Member>): (ks: seq<string>)
    ensures |ks| == |ms| && forall i | 0 <= i < |ms| :: ks[i] == ms[i].key
  {
    seq(|ms|, i requires 0 <= i < |ms| => ms[i].key)
  }

  ghost predicate Listing(ks: seq<string>, all: set<string>) {
    && (forall k :: k in ks <==> k in all)
    && forall i, j | 0 <= i < j < |ks| :: ks[i] != ks[j]
  }

  /** The tree spells the value: the members of every object come in any order. */
  ghost predicate Spells(raw: Raw, v: Value)
    decreases raw, 1
  {
    match raw
    case RNull => v.Null?
    case RBool(flag) => v == Bool(flag)
    case RInt(n) => v == Int(n)
    case RString(text) => v == Str(text)
    case RArray(items) => v.Arr? && SpellItems(items, v.items)
    case RObject(ms) => v.Obj? && Listing(Keys(ms), v.fields.Keys) && SpellMembers(ms, v)
  }

  ghost predicate SpellItems(raws: seq<Raw>, items: seq<Value>)
    decreases raws, 0
  {
    |raws| == |items| && forall i | 0 <= i < |raws| :: Spells(raws[i], items[i])
  }

  ghost predicate SpellMembers(ms: seq<Member>, v: Value)
    requires v.Obj?
    decreases ms, 0
  {
    forall i | 0 <= i < |ms| :: ms[i].key in v.fields && Spells(ms[i].value, v.fields[ms[i].key])
  }

  // ---- Decoding computes the normal form ------------------------------------------

  /** The members already inserted, as a map. */
  predicate Inserted(lib: Libraries, v: Value, ks: seq<string>, depth: nat, m: map<string, Value>)
    requires v.Obj? && forall k | k in ks :: k in v.fields
  {
    && (forall k | k in ks :: lib.nfc(k) in m && Normal(lib, v.fields[k], depth) == Some(m[lib.nfc(k)]))
    && (forall x | x in m :: exists k | k in ks :: lib.nfc(k) == x)
  }

  predicate MembersNormal(lib: Libraries, v: Value, ks: seq<string>, depth: nat)
    requires v.Obj? && forall k | k in ks :: k in v.fields
  {
    && (forall k | k in ks :: Normalize(lib, k).Some? && Normal(lib, v.fields[k], depth).Some?)
    && (forall i, j {:trigger lib.nfc(ks[i]), lib.nfc(ks[j])} | 0 <= i < j < |ks| ::
          lib.nfc(ks[i]) != lib.nfc(ks[j]))
  }

  lemma {:induction false} RawMembersPrefix(order: KeyOrder, v: Value, ks: seq<string>, i: nat)
    requires v.Obj? && (forall k | k in ks :: k in v.fields) && i < |ks|
    ensures forall k | k in ks[..i] :: k in v.fields
    ensures RawMembers(order, v, ks)[..i] == RawMembers(order, v, ks[..i])
    ensures ks[i] in v.fields && RawMembers(order, v, ks)[i] == Member(ks[i], RawOf(order, v.fields[ks[i]]))
    decreases |ks|
  {
    assert ks[i] in ks;
    if i > 0 {
      RawMembersPrefix(order, v, ks[1..], i - 1);
      assert ks[..i][1..] == ks[1..][..i - 1];
    }
  }

  lemma MembersNormalSnoc(lib: Libraries, v: Value, ks: seq<string>, k: string, depth: nat)
    requires v.Obj? && (forall x | x in ks :: x in v.fields) && k in v.fields
    requires forall x | x in ks + [k] :: x in v.fields
    ensures MembersNormal(lib, v, ks + [k], depth) <==>
            && MembersNormal(lib, v, ks, depth)
            && Normalize(lib, k).Some? && Normal(lib, v.fields[k], depth).Some?
            && (forall x | x in ks :: lib.nfc(x) != lib.nfc(k))
  {
    var all := ks + [k];
    assert k in all && all[|ks|] == k && forall x | x in ks :: x in all;
    if MembersNormal(lib, v, all, depth) {
      forall x | x in ks ensures lib.nfc(x) != lib.nfc(k) {
        var i :| 0 <= i < |ks| && ks[i] == x;
        assert lib.nfc(all[i]) != lib.nfc(all[|ks|]);
      }
      forall i, j | 0 <= i < j < |ks| ensures lib.nfc(ks[i]) != lib.nfc(ks[j]) {
        assert lib.nfc(all[i]) != lib.nfc(all[j]);
      }
    }
    if MembersNormal(lib, v, ks, depth) && forall x | x in ks :: lib.nfc(x) != lib.nfc(k) {
      forall i, j | 0 <= i < j < |all| ensures lib.nfc(all[i]) != lib.nfc(all[j]) {
        assert all[i] == ks[i] && ks[i] in ks;
        if j < |ks| { assert all[j] == ks[j]; }
      }
    }
  }

  lemma InsertedSnoc(lib: Libraries, v: Value, ks: seq<string>, k: string, depth: nat, m: map<string, Value>)
    requires v.Obj? && (forall x | x in ks :: x in v.fields) && k in v.fields
    requires forall x | x in ks + [k] :: x in v.fields
    requires Inserted(lib, v, ks, depth, m) && Normal(lib, v.fields[k], depth).Some?
    ensures lib.nfc(k) in m <==> exists x | x in ks :: lib.nfc(x) == lib.nfc(k)
    ensures lib.nfc(k) !in m ==>
              Inserted(lib, v, ks + [k], depth, m[lib.nfc(k) := Normal(lib, v.fields[k], depth).value])
  {
    assert k in ks + [k] && forall x | x in ks :: x in ks + [k];
  }

  ghost predicate DecodedTo(lib: Libraries, v: Value, ks: seq<string>, depth: nat, m: Option<map<string, Value>>)
    requires v.Obj? && forall k | k in ks :: k in v.fields
  {
    && (m.Some? <==> MembersNormal(lib, v, ks, depth))
    && (m.Some? ==> Inserted(lib, v, ks, depth, m.value))
  }

  /** One round of the insertion loop. */
  function InsertMember(lib: Libraries, before: Option<map<string, Value>>, key: string, value: Option<Value>)
    : Option<map<string, Value>>
  {
    var fields :- before;
    var key :- Normalize(lib, key);
    if key in fields then None
    else
      var value :- value;
      Some(fields[key := value])
  }

  lemma InsertStep(lib: Libraries, v: Value, ks: seq<string>, k: string, depth: nat, before: Option<map<string, Value>>)
    requires v.Obj? && (forall x | x in ks :: x in v.fields) && k in v.fields
    requires forall x | x in ks + [k] :: x in v.fields
    requires DecodedTo(lib, v, ks, depth, before)
    ensures DecodedTo(lib, v, ks + [k], depth, InsertMember(lib, before, k, Normal(lib, v.fields[k], depth)))
  {
    MembersNormalSnoc(lib, v, ks, k, depth);
    if before.Some? && Normal(lib, v.fields[k], depth).Some? {
      InsertedSnoc(lib, v, ks, k, depth, before.value);
    }
  }

  /** Decoding the members so far and the next one is one round of the loop. */
  lemma DecodeOneMore(lib: Libraries, ms: seq<Member>, depth: nat, key: string, raw: Raw)
    requires ms != [] && ms[|ms| - 1] == Member(key, raw)
    ensures DecodeMembers(lib, ms, depth)
         == InsertMember(lib, DecodeMembers(lib, ms[..|ms| - 1], depth), key, Decode(lib, raw, depth))
  {
  }

  lemma SpellPrefix(ms: seq<Member>, v: Value, n: nat)
    requires v.Obj? && SpellMembers(ms, v) && n < |ms|
    ensures SpellMembers(ms[..n], v) && Keys(ms[..n + 1]) == Keys(ms[..n]) + [ms[n].key]
    ensures ms[n].key in v.fields && Spells(ms[n].value, v.fields[ms[n].key])
  {
  }

  lemma {:induction false} DecodesMembers(lib: Libraries, ms: seq<Member>, v: Value, depth: nat)
    requires v.Obj? && SpellMembers(ms, v)
    ensures forall k | k in Keys(ms) :: k in v.fields
    ensures DecodedTo(lib, v, Keys(ms), depth, DecodeMembers(lib, ms, depth))
    decreases ms, 0
  {
    if ms == [] {
      assert DecodedTo(lib, v, [], depth, Some(map[]));
    } else {
      var n := |ms| - 1;
      var init, last := ms[..n], ms[n];
      assert ms[..n + 1] == ms;
      SpellPrefix(ms, v, n);
      DecodesMembers(lib, init, v, depth);
      DecodesNormal(lib, last.value, v.fields[last.key], depth);
      InsertStep(lib, v, Keys(init), last.key, depth, DecodeMembers(lib, init, depth));
      DecodeOneMore(lib, ms, depth, last.key, last.value);
    }
  }

  lemma {:induction false} DecodesItems(lib: Libraries, raws: seq<Raw>, items: seq<Value>, depth: nat)
    requires SpellItems(raws, items)
    ensures DecodeItems(lib, raws, depth) == NormalItems(lib, items, depth)
    decreases raws, 0
  {
    if raws != [] {
      DecodesNormal(lib, raws[0], items[0], depth);
      DecodesItems(lib, raws[1..], items[1..], depth);
    }
  }

  lemma {:induction false} DistinctIndex<T>(s: seq<T>, x: T, y: T) returns (i: nat, j: nat)
    requires x in s && y in s && x != y
    ensures i < |s| && j < |s| && s[i] == x && s[j] == y && i != j
  {
    i :| 0 <= i < |s| && s[i] == x;
    j :| 0 <= j < |s| && s[j] == y;
  }

  lemma MembersNormalMeaning(lib: Libraries, ks: seq<string>, v: Value, depth: nat)
    requires v.Obj? && Listing(ks, v.fields.Keys)
    ensures MembersNormal(lib, v, ks, depth) <==>
            && (forall k | k in v.fields ::
                  Normalize(lib, k).Some? && Normal(lib, v.fields[k], depth).Some?)
            && KeysStayApart(lib, v.fields.Keys)
  {
    if MembersNormal(lib, v, ks, depth) {
      forall j, k | j in v.fields.Keys && k in v.fields.Keys && lib.nfc(j) == lib.nfc(k) ensures j == k {
        if j != k {
          var a, b := DistinctIndex(ks, j, k);
        }
      }
    }
    if KeysStayApart(lib, v.fields.Keys) {
      forall i, j | 0 <= i < j < |ks| ensures lib.nfc(ks[i]) != lib.nfc(ks[j]) {
        assert ks[i] in ks && ks[j] in ks && ks[i] != ks[j];
      }
    }
  }

  lemma SameImage(f: string -> string, ks: set<string>, m: map<string, Value>, n: map<string, Value>)
    requires forall k | k in ks :: f(k) in m && f(k) in n && m[f(k)] == n[f(k)]
    requires forall x | x in m :: exists k | k in ks :: f(k) == x
    requires forall x | x in n :: exists k | k in ks :: f(k) == x
    ensures m == n
  {
    forall x ensures x in m <==> x in n {
      if x in m { var k :| k in ks && f(k) == x; }
      if x in n { var k :| k in ks && f(k) == x; }
    }
  }

  lemma InsertedIsNormal(lib: Libraries, ks: seq<string>, v: Value, depth: nat, m: map<string, Value>)
    requires v.Obj? && Normal(lib, v, depth).Some? && Listing(ks, v.fields.Keys)
    requires Inserted(lib, v, ks, depth + 1, m)
    ensures Normal(lib, v, depth).value.fields == m
  {
    var n := Normal(lib, v, depth).value.fields;
    assert forall k | k in v.fields :: k in ks;
    SameImage(lib.nfc, v.fields.Keys, m, n);
  }

  lemma ObjectNormal(lib: Libraries, ks: seq<string>, v: Value, depth: nat, m: Option<map<string, Value>>)
    requires v.Obj? && depth <= MAX_DEPTH && Listing(ks, v.fields.Keys)
    requires DecodedTo(lib, v, ks, depth + 1, m)
    ensures Normal(lib, v, depth).Some? <==> m.Some?
    ensures m.Some? ==> Normal(lib, v, depth).value.Obj? && Normal(lib, v, depth).value.fields == m.value
  {
    MembersNormalMeaning(lib, ks, v, depth + 1);
    if m.Some? {
      InsertedIsNormal(lib, ks, v, depth, m.value);
    }
  }

  /** In whatever order the members of every object were written, decoding gives the normal
      form, or fails when there is none. */
  lemma {:induction false} DecodesNormal(lib: Libraries, raw: Raw, v: Value, depth: nat)
    requires Spells(raw, v)
    ensures Decode(lib, raw, depth) == Normal(lib, v, depth)
    decreases raw, 1
  {
    match raw
    case RNull =>
    case RBool(_) =>
    case RInt(_) =>
    case RString(_) =>
    case RArray(items) =>
      DecodesItems(lib, items, v.items, depth + 1);
      DecodesArray(lib, items, v, depth);
    case RObject(ms) =>
      DecodesMembers(lib, ms, v, depth + 1);
      DecodesObject(lib, ms, v, depth);
  }

  lemma DecodesArray(lib: Libraries, raws: seq<Raw>, v: Value, depth: nat)
    requires v.Arr? && DecodeItems(lib, raws, depth + 1) == NormalItems(lib, v.items, depth + 1)
    ensures Decode(lib, RArray(raws), depth) == Normal(lib, v, depth)
  {
  }

  lemma DecodesObject(lib: Libraries, ms: seq<Member>, v: Value, depth: nat)
    requires v.Obj? && Listing(Keys(ms), v.fields.Keys)
    requires DecodedTo(lib, v, Keys(ms), depth + 1, DecodeMembers(lib, ms, depth + 1))
    ensures Decode(lib, RObject(ms), depth) == Normal(lib, v, depth)
  {
    var m := DecodeMembers(lib, ms, depth + 1);
    DecodeOfObject(lib, ms, depth, m);
    if depth <= MAX_DEPTH {
      ObjectNormal(lib, Keys(ms), v, depth, m);
      ObjectValue(Normal(lib, v, depth), m);
    }
  }

  lemma DecodeOfObject(lib: Libraries, ms: seq<Member>, depth: nat, m: Option<map<string, Value>>)
    requires m == DecodeMembers(lib, ms, depth + 1)
    ensures Decode(lib, RObject(ms), depth)
         == if depth > MAX_DEPTH || m.None? then None else Some(Obj(m.value))
  {
  }

  lemma ObjectValue(n: Option<Value>, m: Option<map<string, Value>>)
    requires n.Some? <==> m.Some?
    requires m.Some? ==> n.value.Obj? && n.value.fields == m.value
    ensures n == if m.None? then None else Some(Obj(m.value))
  {
  }

  // ---- What is decoded spells a value ---------------------------------------------

  /** The value a tree spells, if it spells one; a repeated key would be overwritten. */
  function ValueOf(raw: Raw): Value
    decreases raw, 1
  {
    match raw
    case RNull => Null
    case RBool(flag) => Bool(flag)
    case RInt(n) => Int(n)
    case RString(text) => Str(text)
    case RArray(items) => Arr(ItemValues(items))
    case RObject(ms) => Obj(MemberValues(ms))
  }

  function ItemValues(raws: seq<Raw>): (items: seq<Value>)
    ensures |items| == |raws|
    decreases raws, 0
  {
    if raws == [] then [] else [ValueOf(raws[0])] + ItemValues(raws[1..])
  }

  function MemberValues(ms: seq<Member>): map<string, Value>
    decreases ms, 0
  {
    if ms == [] then map[]
    else MemberValues(ms[..|ms| - 1])[ms[|ms| - 1].key := ValueOf(ms[|ms| - 1].value)]
  }

  lemma {:induction false} KeysInserted(lib: Libraries, ms: seq<Member>, depth: nat)
    requires DecodeMembers(lib, ms, depth).Some?
    ensures forall k | k in Keys(ms) :: lib.nfc(k) in DecodeMembers(lib, ms, depth).value
  {
    if ms != [] {
      var n := |ms| - 1;
      KeysInserted(lib, ms[..n], depth);
      assert Keys(ms) == Keys(ms[..n]) + [ms[n].key];
    }
  }

  lemma SpellOneMore(init: seq<Member>, last: Member, fields: map<string, Value>, v: Value)
    requires Listing(Keys(init), fields.Keys) && SpellMembers(init, Obj(fields))
    requires last.key !in Keys(init) && Spells(last.value, v)
    ensures var all := fields[last.key := v];
            Listing(Keys(init + [last]), all.Keys) && SpellMembers(init + [last], Obj(all))
  {
    var ms, all := init + [last], fields[last.key := v];
    assert Keys(ms) == Keys(init) + [last.key];
    forall i | 0 <= i < |ms| ensures ms[i].key in all && Spells(ms[i].value, all[ms[i].key]) {
      if i < |init| {
        assert ms[i] == init[i] && Keys(init)[i] in Keys(init);
      }
    }
  }

  lemma {:induction false} DecodedMembersSpell(lib: Libraries, ms: seq<Member>, depth: nat)
    requires DecodeMembers(lib, ms, depth).Some?
    ensures Listing(Keys(ms), MemberValues(ms).Keys) && SpellMembers(ms, Obj(MemberValues(ms)))
    decreases ms, 0
  {
    if ms != [] {
      var n := |ms| - 1;
      var init, last := ms[..n], ms[n];
      DecodedMembersSpell(lib, init, depth);
      KeysInserted(lib, init, depth);
      DecodedSpells(lib, last.value, depth);
      SpellOneMore(init, last, MemberValues(init), ValueOf(last.value));
      assert ms == init + [last];
    }
  }

  lemma {:induction false} DecodedItemsSpell(lib: Libraries, raws: seq<Raw>, depth: nat)
    requires DecodeItems(lib, raws, depth).Some?
    ensures SpellItems(raws, ItemValues(raws))
    decreases raws, 0
  {
    if raws != [] {
      DecodedSpells(lib, raws[0], depth);
      DecodedItemsSpell(lib, raws[1..], depth);
      var items := ItemValues(raws);
      forall i | 0 <= i < |raws| ensures Spells(raws[i], items[i]) {
        if i > 0 { assert raws[i] == raws[1..][i - 1] && items[i] == ItemValues(raws[1..])[i - 1]; }
      }
    }
  }

  /** Whatever decodes spells a value: no object of it repeats a key. */
  lemma {:induction false} DecodedSpells(lib: Libraries, raw: Raw, depth: nat)
    requires Decode(lib, raw, depth).Some?
    ensures Spells(raw, ValueOf(raw))
    decreases raw, 1
  {
    match raw
    case RNull =>
    case RBool(_) =>
    case RInt(_) =>
    case RString(_) =>
    case RArray(items) => DecodedItemsSpell(lib, items, depth + 1);
    case RObject(ms) => DecodedMembersSpell(lib, ms, depth + 1);
  }

  /** A tree decodes to n exactly when it spells a value whose normal form is n. */
  lemma DecodesExactly(lib: Libraries, raw: Raw, depth: nat, n: Value)
    ensures Decode(lib, raw, depth) == Some(n) <==>
            exists v :: Spells(raw, v) && Normal(lib, v, depth) == Some(n)
  {
    if Decode(lib, raw, depth) == Some(n) {
      DecodedSpells(lib, raw, depth);
      DecodesNormal(lib, raw, ValueOf(raw), depth);
    }
    if v :| Spells(raw, v) && Normal(lib, v, depth) == Some(n) {
      DecodesNormal(lib, raw, v, depth);
    }
  }

  /** Part of a tree, at any depth. */
  ghost predicate Within(part: Raw, raw: Raw)
    decreases raw
  {
    || part == raw
    || match raw
       case RArray(items) => exists i | 0 <= i < |items| :: Within(part, items[i])
       case RObject(ms) => exists i | 0 <= i < |ms| :: Within(part, ms[i].value)
       case _ => false
  }

  predicate RepeatsKey(raw: Raw) {
    raw.RObject? && exists i, j | 0 <= i < j < |raw.members| :: raw.members[i].key == raw.members[j].key
  }

  lemma {:induction false} SpelledWithin(raw: Raw, v: Value, part: Raw)
    requires Spells(raw, v) && Within(part, raw)
    ensures !RepeatsKey(part)
    decreases raw
  {
    if part == raw {
      if raw.RObject? {
        forall i, j | 0 <= i < j < |raw.members| ensures raw.members[i].key != raw.members[j].key {
          assert Keys(raw.members)[i] != Keys(raw.members)[j];
        }
      }
    } else if raw.RArray? {
      var i :| 0 <= i < |raw.items| && Within(part, raw.items[i]);
      SpelledWithin(raw.items[i], v.items[i], part);
    } else {
      var i :| 0 <= i < |raw.members| && Within(part, raw.members[i].value);
      SpelledWithin(raw.members[i].value, v.fields[raw.members[i].key], part);
    }
  }

  /** A repeated key is refused, however deep it lies. */
  lemma RepeatedKeyIsRefused(lib: Libraries, raw: Raw, part: Raw, depth: nat)
    requires Within(part, raw) && RepeatsKey(part)
    ensures Decode(lib, raw, depth).None?
  {
    if Decode(lib, raw, depth).Some? {
      DecodedSpells(lib, raw, depth);
      SpelledWithin(raw, ValueOf(raw), part);
    }
  }

  // ---- What the writers write spells the value ------------------------------------

  lemma OrderedListing(order: KeyOrder, ks: set<string>)
    ensures Listing(Ordered(order, ks), ks)
  {
    OrderedIncreasing(order, ks);
    var r := Ordered(order, ks);
    forall i, j | 0 <= i < j < |r| ensures r[i] != r[j] {
      assert Less(KeyOf(order)(r[i]), KeyOf(order)(r[j]));
      LessIrreflexive(order.Key(r[i]));
    }
  }

  lemma {:induction false} WrittenSpells(order: KeyOrder, v: Value)
    ensures Spells(RawOf(order, v), v)
    decreases v, 2
  {
    match v
    case Null =>
    case Bool(_) =>
    case Int(_) =>
    case Str(_) =>
    case Arr(items) => ItemsSpell(order, items);
    case Obj(fields) => MembersSpell(order, v);
  }

  lemma {:induction false} ItemsSpell(order: KeyOrder, items: seq<Value>)
    ensures SpellItems(RawItems(order, items), items)
    decreases items, 0
  {
    if items != [] {
      WrittenSpells(order, items[0]);
      ItemsSpell(order, items[1..]);
      var raws := RawItems(order, items);
      forall i | 0 <= i < |raws| ensures Spells(raws[i], items[i]) {
        if i > 0 { assert raws[i] == RawItems(order, items[1..])[i - 1] && items[i] == items[1..][i - 1]; }
      }
    }
  }

  lemma {:induction false} MemberSpells(order: KeyOrder, v: Value, ks: seq<string>, i: nat)
    requires v.Obj? && (forall k | k in ks :: k in v.fields) && i < |ks|
    ensures var m := RawMembers(order, v, ks)[i];
            m.key == ks[i] && ks[i] in v.fields && Spells(m.value, v.fields[ks[i]])
    decreases v, 0
  {
    RawMembersPrefix(order, v, ks, i);
    assert v.fields[ks[i]] < v;
    WrittenSpells(order, v.fields[ks[i]]);
  }

  lemma ObjectSpells(ms: seq<Member>, ks: seq<string>, v: Value)
    requires v.Obj? && Listing(ks, v.fields.Keys) && |ms| == |ks|
    requires forall i | 0 <= i < |ms| ::
               ms[i].key == ks[i] && ks[i] in v.fields && Spells(ms[i].value, v.fields[ks[i]])
    ensures Spells(RObject(ms), v)
  {
    assert Keys(ms) == ks;
  }

  lemma {:induction false} MembersSpell(order: KeyOrder, v: Value)
    requires v.Obj?
    ensures Spells(RawOf(order, v), v)
    decreases v, 1
  {
    var ks := Ordered(order, v.fields.Keys);
    OrderedListing(order, v.fields.Keys);
    var ms := RawMembers(order, v, ks);
    forall i | 0 <= i < |ms|
      ensures ms[i].key == ks[i] && ks[i] in v.fields && Spells(ms[i].value, v.fields[ks[i]])
    {
      MemberSpells(order, v, ks, i);
    }
    ObjectSpells(ms, ks, v);
  }
}
