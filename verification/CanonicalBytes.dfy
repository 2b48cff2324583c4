/** What canonical bytes are for: they decide equality of values, and they are a fixed point
    of parsing and writing. */
module CanonicalBytes {
  import opened Canonical
  import opened JsonText
  import opened Libraries
  import opened Ordering
  import opened Wrappers
  import Utf8

  // ---- Writing is injective -------------------------------------------------------

  lemma {:induction false} RawInjective(order: KeyOrder, v: Value, w: Value)
    requires RawOf(order, v) == RawOf(order, w)
    ensures v == w
    decreases v, 1
  {
    match v
    case Null =>
    case Bool(_) =>
    case Int(_) =>
    case Str(_) =>
    case Arr(items) => RawItemsInjective(order, items, w.items);
    case Obj(fields) => RawObjectInjective(order, v, w);
  }

  lemma {:induction false} RawItemsInjective(order: KeyOrder, items: seq<Value>, others: seq<Value>)
    requires RawItems(order, items) == RawItems(order, others)
    ensures items == others
    decreases items, 0
  {
    if items != [] {
      assert RawItems(order, items)[0] == RawItems(order, others)[0];
      RawInjective(order, items[0], others[0]);
      assert RawItems(order, items)[1..] == RawItems(order, others)[1..];
      RawItemsInjective(order, items[1..], others[1..]);
      assert items == [items[0]] + items[1..] && others == [others[0]] + others[1..];
    }
  }

  lemma {:induction false} RawObjectInjective(order: KeyOrder, v: Value, w: Value)
    requires v.Obj? && w.Obj? && RawOf(order, v) == RawOf(order, w)
    ensures v == w
    decreases v, 0
  {
    var js, ks := Ordered(order, v.fields.Keys), Ordered(order, w.fields.Keys);
    var ms, ns := RawMembers(order, v, js), RawMembers(order, w, ks);
    assert ms == ns;
    forall i | 0 <= i < |js| ensures js[i] == ks[i] && v.fields[js[i]] == w.fields[ks[i]] {
      RawMembersPrefix(order, v, js, i);
      RawMembersPrefix(order, w, ks, i);
      assert ms[i] == ns[i];
      assert v.fields[js[i]] < v;
      RawInjective(order, v.fields[js[i]], w.fields[ks[i]]);
    }
    assert js == ks;
    forall k ensures k in v.fields <==> k in w.fields {
      assert k in js <==> k in ks;
    }
    forall k | k in v.fields ensures v.fields[k] == w.fields[k] {
      var i :| 0 <= i < |js| && js[i] == k;
    }
    assert v.fields == w.fields;
  }

  lemma SerializeInjective(order: KeyOrder, v: Value, w: Value)
    requires Serialize(order, v) == Serialize(order, w)
    ensures v == w
  {
    Utf8.EncodeInjective(Print(RawOf(order, v)), Print(RawOf(order, w)));
    PrintInjective(RawOf(order, v), RawOf(order, w));
    RawInjective(order, v, w);
  }

  // ---- Parsing what was written ---------------------------------------------------

  /** Parsing any text of a value gives its normal form. */
  lemma ParseOfText(lib: Libraries, raw: Raw, v: Value)
    requires Spells(raw, v) && |Utf8.Encode(Print(raw))| <= MAX_JSON_BYTES
    ensures Parse(lib, Utf8.Encode(Print(raw))) == Normal(lib, v, 0)
  {
    Utf8.DecodeEncode(Print(raw));
    ReadPrint(raw);
    DecodesNormal(lib, raw, v, 0);
  }

  /** A text is parsed to n exactly when it is within the size bound and spells a value
      whose normal form is n; no text with a repeated key does. */
  lemma ParseExactly(lib: Libraries, bytes: seq<Utf8.byte>, n: Value)
    ensures Parse(lib, bytes) == Some(n) <==>
            && |bytes| <= MAX_JSON_BYTES && Utf8.Decode(bytes).Some? && Read(Utf8.Decode(bytes).value).Some?
            && exists v :: Spells(Read(Utf8.Decode(bytes).value).value, v) && Normal(lib, v, 0) == Some(n)
  {
    if Utf8.Decode(bytes).Some? && Read(Utf8.Decode(bytes).value).Some? {
      DecodesExactly(lib, Read(Utf8.Decode(bytes).value).value, 0, n);
    }
  }

  lemma ParseOfSerialize(lib: Libraries, order: KeyOrder, v: Value)
    requires |Serialize(order, v)| <= MAX_JSON_BYTES
    ensures Parse(lib, Serialize(order, v)) == Normal(lib, v, 0)
  {
    WrittenSpells(order, v);
    ParseOfText(lib, RawOf(order, v), v);
  }

  /** Writing succeeds exactly for values with a normal form and a short enough text, and
      writes that normal form. */
  lemma BytesMeaning(lib: Libraries, v: Value)
    ensures Bytes(lib, v).Some? <==>
            |Serialize(ByCode, v)| <= MAX_JSON_BYTES && Normal(lib, v, 0).Some?
    ensures Bytes(lib, v).Some? ==> Bytes(lib, v).value == Serialize(ByUnit, Normal(lib, v, 0).value)
  {
    var written := Serialize(ByCode, v);
    if |written| <= MAX_JSON_BYTES {
      ParseOfSerialize(lib, ByCode, v);
      assert Parse(lib, written) == Normal(lib, v, 0);
    } else {
      assert Parse(lib, written).None?;
    }
  }

  /** Canonical bytes decide equality of normal forms, as unordered objects. */
  lemma BytesDecideEquality(lib: Libraries, v: Value, w: Value)
    requires Bytes(lib, v).Some? && Bytes(lib, w).Some?
    ensures Bytes(lib, v) == Bytes(lib, w) <==> Normal(lib, v, 0) == Normal(lib, w, 0)
  {
    BytesMeaning(lib, v);
    BytesMeaning(lib, w);
    if Bytes(lib, v) == Bytes(lib, w) {
      SerializeInjective(ByUnit, Normal(lib, v, 0).value, Normal(lib, w, 0).value);
    }
  }

  // ---- Normal forms stay ----------------------------------------------------------

  lemma {:induction false} NormalStays(lib: Libraries, v: Value, depth: nat)
    requires NfcLaw(lib) && Normal(lib, v, depth).Some?
    ensures Normal(lib, Normal(lib, v, depth).value, depth) == Normal(lib, v, depth)
    decreases v, 1
  {
    match v
    case Null =>
    case Bool(_) =>
    case Int(_) =>
    case Str(_) =>
    case Arr(items) => NormalItemsStay(lib, items, depth + 1);
    case Obj(fields) => NormalObjectStays(lib, v, depth);
  }

  lemma {:induction false} NormalItemsStay(lib: Libraries, items: seq<Value>, depth: nat)
    requires NfcLaw(lib) && NormalItems(lib, items, depth).Some?
    ensures NormalItems(lib, NormalItems(lib, items, depth).value, depth) == NormalItems(lib, items, depth)
    decreases items, 0
  {
    if items != [] {
      NormalStays(lib, items[0], depth);
      NormalItemsStay(lib, items[1..], depth);
      var n := NormalItems(lib, items, depth).value;
      assert n[1..] == NormalItems(lib, items[1..], depth).value;
    }
  }

  lemma {:induction false} NormalObjectStays(lib: Libraries, v: Value, depth: nat)
    requires NfcLaw(lib) && v.Obj? && Normal(lib, v, depth).Some?
    ensures Normal(lib, Normal(lib, v, depth).value, depth) == Normal(lib, v, depth)
    decreases v, 0
  {
    var n := Normal(lib, v, depth).value;
    forall x | x in n.fields
      ensures lib.nfc(x) == x && Normalize(lib, x).Some? && Normal(lib, n.fields[x], depth + 1) == Some(n.fields[x])
    {
      var k :| k in v.fields && lib.nfc(k) == x;
      NormalStays(lib, v.fields[k], depth + 1);
    }
    StaysAsItIs(lib, n, depth);
  }

  /** An object of fields that stay, under keys that stay. */
  lemma StaysAsItIs(lib: Libraries, n: Value, depth: nat)
    requires n.Obj? && depth <= MAX_DEPTH
    requires forall x | x in n.fields ::
               lib.nfc(x) == x && Normalize(lib, x).Some? && Normal(lib, n.fields[x], depth + 1) == Some(n.fields[x])
    ensures Normal(lib, n, depth) == Some(n)
  {
    assert KeysStayApart(lib, n.fields.Keys);
    var again := Normal(lib, n, depth);
    assert again.Some?;
    SameFields(again.value.fields, n.fields);
    assert again.value == n;
  }

  lemma SameFields(m: map<string, Value>, n: map<string, Value>)
    requires forall x | x in n :: x in m && m[x] == n[x]
    requires forall x | x in m :: x in n
    ensures m == n
  {
  }

  // ---- The order of members does not change the size ------------------------------

  function Width(s: string): nat {
    |Utf8.Encode(s)|
  }

  lemma WidthConcat(s: string, t: string)
    ensures Width(s + t) == Width(s) + Width(t)
  {
    Utf8.EncodeConcat(s, t);
  }

  /** What a member adds to its object, apart from commas. */
  function MemberWidth(order: KeyOrder, v: Value): string -> nat
    requires v.Obj?
  {
    (k: string) =>
      if k in v.fields then Width(Quote(k)) + 1 + Width(Print(RawOf(order, v.fields[k]))) else 0
  }

  lemma {:induction false} MembersWidth(order: KeyOrder, v: Value, ks: seq<string>, first: bool)
    requires v.Obj? && forall k | k in ks :: k in v.fields
    ensures Width(PrintMembers(RawMembers(order, v, ks), first))
         == 1 + Total(MemberWidth(order, v), ks) + (if first && ks != [] then |ks| - 1 else |ks|)
    decreases |ks|
  {
    WidthOfChars();
    if ks != [] {
      var m := RawMembers(order, v, ks)[0];
      var comma, more := if first then "" else ",", PrintMembers(RawMembers(order, v, ks)[1..], false);
      assert ks[0] in v.fields;
      assert m == Member(ks[0], RawOf(order, v.fields[ks[0]]));
      assert RawMembers(order, v, ks)[1..] == RawMembers(order, v, ks[1..]);
      MembersWidth(order, v, ks[1..], false);
      WidthConcat(comma, Quote(m.key));
      WidthConcat(comma + Quote(m.key), ":");
      WidthConcat(comma + Quote(m.key) + ":", Print(m.value));
      WidthConcat(comma + Quote(m.key) + ":" + Print(m.value), more);
    }
  }

  lemma WidthOfChars()
    ensures Width("") == 0
    ensures forall c: char | c as int < 0x80 :: Width([c]) == 1
  {
    forall c: char | c as int < 0x80 ensures Width([c]) == 1 {
      assert [c][1..] == "";
      assert Utf8.Encode([c]) == Utf8.EncodeChar(c) + Utf8.Encode("");
    }
  }

  lemma OrdersPermute(ks: set<string>)
    ensures multiset(Ordered(ByCode, ks)) == multiset(Ordered(ByUnit, ks))
  {
    OnceEach(ByCode, ks);
    OnceEach(ByUnit, ks);
  }

  lemma {:induction false} OnceEach(order: KeyOrder, ks: set<string>)
    ensures multiset(Ordered(order, ks)) == multiset(ks)
  {
    if ks != {} {
      var r := Ordered(order, ks);
      OnceEach(order, ks - {r[0]});
      assert r == [r[0]] + r[1..] && r[1..] == Ordered(order, ks - {r[0]});
      assert multiset(ks) == multiset{r[0]} + multiset(ks - {r[0]});
    }
  }

  lemma {:induction false} SameWidth(v: Value)
    ensures Width(Print(RawOf(ByCode, v))) == Width(Print(RawOf(ByUnit, v)))
    decreases v, 2
  {
    match v
    case Null =>
    case Bool(_) =>
    case Int(_) =>
    case Str(_) =>
    case Arr(items) =>
      SameItemsWidth(items, true);
      WidthConcat("[", PrintItems(RawItems(ByCode, items), true));
      WidthConcat("[", PrintItems(RawItems(ByUnit, items), true));
    case Obj(fields) =>
      SameObjectWidth(v);
  }

  lemma {:induction false} SameItemsWidth(items: seq<Value>, first: bool)
    ensures Width(PrintItems(RawItems(ByCode, items), first)) == Width(PrintItems(RawItems(ByUnit, items), first))
    decreases items, 0
  {
    if items != [] {
      SameWidth(items[0]);
      SameItemsWidth(items[1..], false);
      ItemWidth(ByCode, items, first);
      ItemWidth(ByUnit, items, first);
    }
  }

  lemma ItemWidth(order: KeyOrder, items: seq<Value>, first: bool)
    requires items != []
    ensures Width(PrintItems(RawItems(order, items), first))
         == Width(if first then "" else ",") + Width(Print(RawOf(order, items[0])))
          + Width(PrintItems(RawItems(order, items[1..]), false))
  {
    var comma, item := if first then "" else ",", Print(RawOf(order, items[0]));
    var raws := RawItems(order, items);
    assert raws[0] == RawOf(order, items[0]) && raws[1..] == RawItems(order, items[1..]);
    WidthConcat(comma, item);
    WidthConcat(comma + item, PrintItems(raws[1..], false));
  }

  lemma BraceWidth(members: seq<Member>)
    ensures Width(Print(RObject(members))) == 1 + Width(PrintMembers(members, true))
  {
    WidthOfChars();
    WidthConcat("{", PrintMembers(members, true));
  }

  lemma ObjectWidth(order: KeyOrder, v: Value)
    requires v.Obj?
    ensures Width(Print(RawOf(order, v)))
         == 2 + Total(MemberWidth(order, v), Ordered(order, v.fields.Keys))
          + (if |v.fields| == 0 then 0 else |v.fields| - 1)
  {
    var ks := Ordered(order, v.fields.Keys);
    MembersWidth(order, v, ks, true);
    BraceWidth(RawMembers(order, v, ks));
  }

  lemma {:induction false} SameMemberWidth(v: Value, k: string)
    requires v.Obj?
    ensures MemberWidth(ByCode, v)(k) == MemberWidth(ByUnit, v)(k)
    decreases v, 0
  {
    if k in v.fields {
      assert v.fields[k] < v;
      SameWidth(v.fields[k]);
    }
  }

  lemma {:induction false} SameObjectWidth(v: Value)
    requires v.Obj?
    ensures Width(Print(RawOf(ByCode, v))) == Width(Print(RawOf(ByUnit, v)))
    decreases v, 1
  {
    var js, ks := Ordered(ByCode, v.fields.Keys), Ordered(ByUnit, v.fields.Keys);
    var f, g := MemberWidth(ByCode, v), MemberWidth(ByUnit, v);
    forall k | k in ks ensures f(k) == g(k) {
      SameMemberWidth(v, k);
    }
    OrdersPermute(v.fields.Keys);
    TotalPermutation(f, js, ks);
    SameTotal(f, g, ks);
    ObjectWidth(ByCode, v);
    ObjectWidth(ByUnit, v);
  }

  // ---- Fixed point ----------------------------------------------------------------

  /** Within the size bound, parsing canonical bytes gives the normal form, and writing that
      gives the same bytes again. */
  lemma BytesFixedPoint(lib: Libraries, v: Value)
    requires NfcLaw(lib) && Bytes(lib, v).Some? && |Bytes(lib, v).value| <= MAX_JSON_BYTES
    ensures Parse(lib, Bytes(lib, v).value) == Normal(lib, v, 0)
    ensures Normal(lib, v, 0).Some? && Bytes(lib, Normal(lib, v, 0).value) == Bytes(lib, v)
  {
    BytesMeaning(lib, v);
    var n := Normal(lib, v, 0).value;
    NormalStays(lib, v, 0);
    ParseOfSerialize(lib, ByUnit, n);
    SameWidth(n);
    BytesMeaning(lib, n);
  }
}
