/** Normal forms read off the places of a value: which values have one, and what stands at
    each place of it. */
module NormalForms {
  import opened Canonical
  import opened CanonicalBytes
  import opened Libraries
  import opened Wrappers
  import JsonGrammar
  import JsonText
  import Utf8

  datatype Step = Item(i: nat) | Field(k: string)

  function Child(v: Value, s: Step): Option<Value> {
    match s
    case Item(i) => if v.Arr? && i < |v.items| then Some(v.items[i]) else None
    case Field(k) => if v.Obj? && k in v.fields then Some(v.fields[k]) else None
  }

  /** What stands at a place. */
  function At(v: Value, p: seq<Step>): Option<Value> {
    if p == [] then Some(v)
    else
      var child :- Child(v, p[0]);
      At(child, p[1..])
  }

  /** What one place must satisfy, whatever stands below it. */
  predicate Sound(lib: Libraries, v: Value) {
    match v
    case Null => true
    case Bool(_) => true
    case Int(n) => -9_007_199_254_740_991 <= n <= 9_007_199_254_740_991
    case Str(text) => '\U{FEFF}' !in text
    case Arr(_) => true
    case Obj(fields) =>
      && (forall k | k in fields :: '\U{FEFF}' !in k)
      && forall j, k | j in fields && k in fields && j != k :: lib.nfc(j) != lib.nfc(k)
  }

  ghost predicate SoundThroughout(lib: Libraries, v: Value, depth: nat) {
    forall p | At(v, p).Some? :: depth + |p| <= 128 && Sound(lib, At(v, p).value)
  }

  ghost predicate SoundBelow(lib: Libraries, v: Value, depth: nat) {
    forall s | Child(v, s).Some? :: SoundThroughout(lib, Child(v, s).value, depth + 1)
  }

  lemma OneStep(v: Value, s: Step, p: seq<Step>)
    requires Child(v, s).Some?
    ensures At(v, [s] + p) == At(Child(v, s).value, p)
  {
    assert ([s] + p)[1..] == p;
  }

  lemma Throughout(lib: Libraries, v: Value, depth: nat)
    ensures SoundThroughout(lib, v, depth) <==> depth <= 128 && Sound(lib, v) && SoundBelow(lib, v, depth)
  {
    if SoundThroughout(lib, v, depth) {
      assert At(v, []) == Some(v);
      forall s | Child(v, s).Some? ensures SoundThroughout(lib, Child(v, s).value, depth + 1) {
        var c := Child(v, s).value;
        forall p | At(c, p).Some? ensures depth + 1 + |p| <= 128 && Sound(lib, At(c, p).value) {
          OneStep(v, s, p);
        }
      }
    }
    if depth <= 128 && Sound(lib, v) && SoundBelow(lib, v, depth) {
      forall p | At(v, p).Some? ensures depth + |p| <= 128 && Sound(lib, At(v, p).value) {
        if p != [] {
          assert SoundThroughout(lib, Child(v, p[0]).value, depth + 1);
          assert At(v, p) == At(Child(v, p[0]).value, p[1..]);
        }
      }
    }
  }

  lemma {:induction false} ItemsNormal(lib: Libraries, items: seq<Value>, depth: nat)
    ensures NormalItems(lib, items, depth).Some? <==>
            forall i | 0 <= i < |items| :: Normal(lib, items[i], depth).Some?
    ensures NormalItems(lib, items, depth).Some? ==>
              forall i | 0 <= i < |items| ::
                Normal(lib, items[i], depth) == Some(NormalItems(lib, items, depth).value[i])
  {
    if items != [] {
      ItemsNormal(lib, items[1..], depth);
      assert forall i | 0 < i < |items| :: items[i] == items[1..][i - 1];
      if forall i | 0 <= i < |items| :: Normal(lib, items[i], depth).Some? {
        forall i | 0 <= i < |items[1..]| ensures Normal(lib, items[1..][i], depth).Some? {
          assert items[1..][i] == items[i + 1];
        }
      }
    }
  }

  lemma BelowArray(lib: Libraries, v: Value, depth: nat)
    requires v.Arr?
    ensures SoundBelow(lib, v, depth) <==> forall c | c in v.items :: SoundThroughout(lib, c, depth + 1)
  {
    if SoundBelow(lib, v, depth) {
      forall c | c in v.items ensures SoundThroughout(lib, c, depth + 1) {
        var i :| 0 <= i < |v.items| && v.items[i] == c;
        assert Child(v, Item(i)) == Some(c);
      }
    } else {
      var s :| Child(v, s).Some? && !SoundThroughout(lib, Child(v, s).value, depth + 1);
      assert Child(v, s).value in v.items;
    }
  }

  lemma BelowObject(lib: Libraries, v: Value, depth: nat)
    requires v.Obj?
    ensures SoundBelow(lib, v, depth) <==>
            forall k | k in v.fields :: SoundThroughout(lib, v.fields[k], depth + 1)
  {
    if SoundBelow(lib, v, depth) {
      forall k | k in v.fields ensures SoundThroughout(lib, v.fields[k], depth + 1) {
        assert Child(v, Field(k)) == Some(v.fields[k]);
      }
    } else {
      var s :| Child(v, s).Some? && !SoundThroughout(lib, Child(v, s).value, depth + 1);
      assert s.k in v.fields;
    }
  }

  lemma NormalOfArray(lib: Libraries, v: Value, depth: nat)
    requires v.Arr? && depth <= 128
    ensures Normal(lib, v, depth).Some? <==> NormalItems(lib, v.items, depth + 1).Some?
  {
  }

  lemma {:induction false} ArrayNormal(lib: Libraries, v: Value, depth: nat)
    requires v.Arr? && depth <= 128
    ensures Normal(lib, v, depth).Some? <==> forall c | c in v.items :: Normal(lib, c, depth + 1).Some?
  {
    var items := v.items;
    NormalOfArray(lib, v, depth);
    ItemsNormal(lib, items, depth + 1);
    if NormalItems(lib, items, depth + 1).Some? {
      forall c | c in items ensures Normal(lib, c, depth + 1).Some? {
        var i :| 0 <= i < |items| && items[i] == c;
      }
    } else {
      var i :| 0 <= i < |items| && Normal(lib, items[i], depth + 1).None?;
      assert items[i] in items;
    }
  }

  lemma ObjectNormal(lib: Libraries, v: Value, depth: nat)
    requires v.Obj? && depth <= 128 && Sound(lib, v)
    ensures Normal(lib, v, depth).Some? <==>
            forall k | k in v.fields :: Normal(lib, v.fields[k], depth + 1).Some?
  {
  }

  lemma NormalIsSound(lib: Libraries, v: Value, depth: nat)
    requires Normal(lib, v, depth).Some?
    ensures depth <= 128 && Sound(lib, v)
  {
  }

  /** A value has a normal form exactly when every place of it is sound and none is deeper
      than 128. */
  lemma {:induction false} NormalExists(lib: Libraries, v: Value, depth: nat)
    ensures Normal(lib, v, depth).Some? <==> SoundThroughout(lib, v, depth)
    decreases v
  {
    Throughout(lib, v, depth);
    if depth > 128 || !Sound(lib, v) {
      if Normal(lib, v, depth).Some? { NormalIsSound(lib, v, depth); }
    } else if v.Arr? {
      forall c | c in v.items ensures Normal(lib, c, depth + 1).Some? <==> SoundThroughout(lib, c, depth + 1) {
        NormalExists(lib, c, depth + 1);
      }
      ArrayNormal(lib, v, depth);
      BelowArray(lib, v, depth);
    } else if v.Obj? {
      forall k | k in v.fields
        ensures Normal(lib, v.fields[k], depth + 1).Some? <==> SoundThroughout(lib, v.fields[k], depth + 1)
      {
        NormalExists(lib, v.fields[k], depth + 1);
      }
      ObjectNormal(lib, v, depth);
      BelowObject(lib, v, depth);
    }
  }

  // ---- What stands at each place --------------------------------------------------

  function Moved(lib: Libraries, s: Step): Step {
    match s
    case Item(i) => s
    case Field(k) => Field(lib.nfc(k))
  }

  /** The same place with its keys in NFC. */
  function Place(lib: Libraries, p: seq<Step>): seq<Step> {
    if p == [] then [] else [Moved(lib, p[0])] + Place(lib, p[1..])
  }

  /** One place of the normal form, whatever stands below it: texts and keys are in NFC,
      everything else is as it was, and nothing is added. */
  ghost predicate Alike(lib: Libraries, v: Value, n: Value) {
    match v
    case Null => n.Null?
    case Bool(_) => n == v
    case Int(_) => n == v
    case Str(text) => n == Str(lib.nfc(text))
    case Arr(items) => n.Arr? && |n.items| == |items|
    case Obj(fields) => n.Obj? && forall x :: x in n.fields <==> exists k :: k in fields && lib.nfc(k) == x
  }

  lemma ChildNormal(lib: Libraries, v: Value, depth: nat, s: Step)
    requires Normal(lib, v, depth).Some? && Child(v, s).Some?
    ensures Child(Normal(lib, v, depth).value, Moved(lib, s)).Some?
    ensures Normal(lib, Child(v, s).value, depth + 1)
         == Some(Child(Normal(lib, v, depth).value, Moved(lib, s)).value)
  {
    if v.Arr? { ItemsNormal(lib, v.items, depth + 1); }
  }

  lemma {:induction false} NormalAt(lib: Libraries, v: Value, depth: nat, p: seq<Step>)
    requires Normal(lib, v, depth).Some? && At(v, p).Some?
    ensures var n := At(Normal(lib, v, depth).value, Place(lib, p));
            n.Some? && Alike(lib, At(v, p).value, n.value)
    decreases |p|
  {
    if p != [] {
      ChildNormal(lib, v, depth, p[0]);
      NormalAt(lib, Child(v, p[0]).value, depth + 1, p[1..]);
      OneStep(Normal(lib, v, depth).value, Moved(lib, p[0]), Place(lib, p[1..]));
    }
  }

  /** Canonical bytes exist exactly for sound values whose text has at most 16 MiB. */
  lemma BytesExist(lib: Libraries, v: Value)
    ensures Bytes(lib, v).Some? <==> SoundThroughout(lib, v, 0) && |Serialize(ByCode, v)| <= 16_777_216
  {
    BytesMeaning(lib, v);
    NormalExists(lib, v, 0);
  }

  ghost predicate TextOf(lib: Libraries, text: string, raw: JsonText.Raw, v: Value, n: Value) {
    JsonGrammar.Json(text, raw) && Spells(raw, v) && Normal(lib, v, 0) == Some(n)
  }

  lemma ParsedText(lib: Libraries, bytes: seq<Utf8.byte>, n: Value)
      returns (text: string, raw: JsonText.Raw, v: Value)
    requires Parse(lib, bytes) == Some(n)
    ensures |bytes| <= 16_777_216 && bytes == Utf8.Encode(text) && TextOf(lib, text, raw, v, n)
  {
    ParseExactly(lib, bytes, n);
    text := Utf8.Decode(bytes).value;
    raw := JsonText.Read(text).value;
    v :| Spells(raw, v) && Normal(lib, v, 0) == Some(n);
    Utf8.DecodeExactly(bytes, text);
    JsonGrammar.ReadExactly(text, raw);
  }

  lemma TextParsed(lib: Libraries, text: string, raw: JsonText.Raw, v: Value, n: Value)
    requires |Utf8.Encode(text)| <= 16_777_216 && TextOf(lib, text, raw, v, n)
    ensures Parse(lib, Utf8.Encode(text)) == Some(n)
  {
    Utf8.DecodeEncode(text);
    JsonGrammar.ReadExactly(text, raw);
    DecodesNormal(lib, raw, v, 0);
  }

  /** Bytes are parsed to n exactly when they are at most 16 MiB and the UTF-8 encoding of a
      text from which the grammar derives a tree that spells a value, no key repeated, whose
      normal form is n. */
  lemma ParsedExactly(lib: Libraries, bytes: seq<Utf8.byte>, n: Value)
    ensures Parse(lib, bytes) == Some(n) <==>
            |bytes| <= 16_777_216 && exists text, raw, v :: bytes == Utf8.Encode(text) && TextOf(lib, text, raw, v, n)
  {
    if Parse(lib, bytes) == Some(n) {
      var text, raw, v := ParsedText(lib, bytes, n);
    } else if text, raw, v :| |bytes| <= 16_777_216 && bytes == Utf8.Encode(text) && TextOf(lib, text, raw, v, n) {
      TextParsed(lib, text, raw, v, n);
    }
  }
}
