/** Freeing the names of Official sources: every colliding identity moves to the first free
    name of its own sequence of candidates. */
module CatalogNames {
  import opened Sets
  import opened Wrappers
  import Decimal

  datatype Identity = Identity(owner: string, canonical: string, normalized: string)

  type Catalog = map<string, Identity>

  datatype Source = Source(stableId: string, canonical: Option<string>, inventory: string, owner: string)

  /** A name that a source needs and the identity that holds it. */
  datatype Collision = Collision(name: string, id: string)

  const WIDTH := 80

  predicate InUse(catalog: Catalog, name: string) {
    exists id | id in catalog :: catalog[id].normalized == name
  }

  /** The unique constraint. */
  predicate Distinct(catalog: Catalog) {
    forall i, j | i in catalog && j in catalog && catalog[i].normalized == catalog[j].normalized :: i == j
  }

  predicate Collides(s: Source, catalog: Catalog, id: string) {
    && s.canonical.Some? && s.inventory != "removed" && s.inventory != "transferred"
    && id in catalog && catalog[id].normalized == s.canonical.value
    && id != s.stableId && catalog[id].owner != s.owner
  }

  /** The rows of the query, in the order of the sources: each has at most one holder. */
  function Collisions(sources: seq<Source>, catalog: Catalog): (r: seq<Collision>)
    requires Distinct(catalog)
    ensures forall c | c in r :: exists s | s in sources ::
              Collides(s, catalog, c.id) && s.canonical == Some(c.name)
    ensures forall s, id | s in sources && Collides(s, catalog, id) ::
              Collision(s.canonical.value, id) in r
  {
    if sources == [] then []
    else
      var s := sources[0];
      (if exists id | id in catalog :: Collides(s, catalog, id) then
         var id :| id in catalog && Collides(s, catalog, id);
         [Collision(s.canonical.value, id)]
       else [])
      + Collisions(sources[1..], catalog)
  }

  lemma CollisionsOneMore(s: Source, rest: seq<Source>, catalog: Catalog)
    requires Distinct(catalog)
    ensures Collisions([s] + rest, catalog) == Collisions([s], catalog) + Collisions(rest, catalog)
  {
    assert ([s] + rest)[1..] == rest && [s][1..] == [] && Collisions([], catalog) == [];
  }

  lemma Joined<T>(s: T, rest: seq<T>, others: seq<T>)
    ensures ([s] + rest) + others == [s] + (rest + others)
  {
  }

  /** The rounds come in the order of the sources. */
  lemma {:induction false} CollisionsInOrder(sources: seq<Source>, others: seq<Source>, catalog: Catalog)
    requires Distinct(catalog)
    ensures Collisions(sources + others, catalog) == Collisions(sources, catalog) + Collisions(others, catalog)
  {
    var cs := Collisions(others, catalog);
    if sources == [] {
      assert sources + others == others && Collisions(sources, catalog) == [];
      assert [] + cs == cs;
    } else {
      var s, rest := sources[0], sources[1..];
      assert sources == [s] + rest;
      var one, more := Collisions([s], catalog), Collisions(rest, catalog);
      CollisionsInOrder(rest, others, catalog);
      CollisionsOneMore(s, rest, catalog);
      CollisionsOneMore(s, rest + others, catalog);
      Joined(s, rest, others);
      assert one + (more + cs) == one + more + cs;
    }
  }

  /** And a source has one round, if a foreign identity holds its name, or none. */
  lemma CollisionsOfOne(s: Source, catalog: Catalog, id: string)
    requires Distinct(catalog)
    ensures Collides(s, catalog, id) ==> Collisions([s], catalog) == [Collision(s.canonical.value, id)]
    ensures (forall x :: !Collides(s, catalog, x)) ==> Collisions([s], catalog) == []
  {
    assert [s][1..] == [] && Collisions([], catalog) == [];
  }

  // ---- Candidates -----------------------------------------------------------------

  predicate Alphanumeric(c: char) {
    'a' <= c <= 'z' || 'A' <= c <= 'Z' || '0' <= c <= '9'
  }

  function OnlyAlphanumeric(s: string): string {
    if s == "" then "" else (if Alphanumeric(s[0]) then [s[0]] else "") + OnlyAlphanumeric(s[1..])
  }

  function Lower(s: string): (r: string)
    ensures |r| == |s|
  {
    if s == "" then "" else [if 'A' <= s[0] <= 'Z' then (s[0] as int + 32) as char else s[0]] + Lower(s[1..])
  }

  function Left(s: string, n: nat): string {
    if |s| <= n then s else s[..n]
  }

  function Right(s: string, n: nat): string {
    if |s| <= n then s else s[|s| - n..]
  }

  function Suffix(id: string): (s: string)
    ensures |s| <= 8
  {
    Lower(Right(OnlyAlphanumeric(id), 8))
  }

  /** The first candidate, and then one for each serial number. */
  function Candidate(c: Collision, serial: nat): string {
    if serial == 0 then Left(c.name + "-" + Suffix(c.id), WIDTH)
    else Left(c.name, 70) + "-" + Suffix(c.id) + "-" + Decimal.Digits(serial)
  }

  lemma {:induction false} AlphanumericConcat(a: string, b: string)
    ensures OnlyAlphanumeric(a + b) == OnlyAlphanumeric(a) + OnlyAlphanumeric(b)
  {
    if a == "" {
      assert a + b == b;
    } else {
      AlphanumericConcat(a[1..], b);
      assert (a + b)[1..] == a[1..] + b && (a + b)[0] == a[0];
    }
  }

  /** Only letters and digits count, and of these the last eight, in lower case. */
  lemma SuffixOfEnd(a: string, b: string)
    requires |OnlyAlphanumeric(b)| == 8
    ensures Suffix(a + b) == Lower(OnlyAlphanumeric(b))
  {
    AlphanumericConcat(a, b);
    var all := OnlyAlphanumeric(a) + OnlyAlphanumeric(b);
    assert all[|all| - 8..] == OnlyAlphanumeric(b);
  }

  lemma {:induction false} LowerExactly(s: string, i: nat)
    requires i < |s|
    ensures Lower(s)[i] == if 'A' <= s[i] <= 'Z' then (s[i] as int + 32) as char else s[i]
  {
    if i > 0 { LowerExactly(s[1..], i - 1); }
  }

  /** A name is cut at 80 characters for the first candidate and at 70 for the others. */
  lemma CandidateForms(c: Collision, serial: nat)
    ensures |c.name| + 1 + |Suffix(c.id)| <= 80 ==> Candidate(c, 0) == c.name + "-" + Suffix(c.id)
    ensures |c.name| >= 80 ==> Candidate(c, 0) == c.name[..80]
    ensures serial >= 1 && |c.name| <= 70 ==>
              Candidate(c, serial) == c.name + "-" + Suffix(c.id) + "-" + Decimal.Digits(serial)
    ensures serial >= 1 && |c.name| > 70 ==>
              Candidate(c, serial) == c.name[..70] + "-" + Suffix(c.id) + "-" + Decimal.Digits(serial)
  {
  }

  lemma CandidatesDiffer(c: Collision, i: nat, j: nat)
    requires 1 <= i && 1 <= j && Candidate(c, i) == Candidate(c, j)
    ensures i == j
  {
    var head := Left(c.name, 70) + "-" + Suffix(c.id) + "-";
    var a, b := Decimal.Digits(i), Decimal.Digits(j);
    assert head + a == Candidate(c, i) && head + b == Candidate(c, j);
    assert a == (head + a)[|head|..] && b == (head + b)[|head|..];
    Decimal.DigitsInjective(i, j);
  }

  function Names(catalog: Catalog): set<string> {
    set id | id in catalog :: catalog[id].normalized
  }

  lemma {:induction false} FewNames(catalog: Catalog)
    ensures |Names(catalog)| <= |catalog|
  {
    if catalog != map[] {
      var id :| id in catalog;
      var rest := catalog - {id};
      FewNames(rest);
      assert Names(catalog) == Names(rest) + {catalog[id].normalized};
      assert |rest| == |catalog| - 1 by { assert rest.Keys == catalog.Keys - {id}; }
    }
  }

  /** The first n numbered candidates. */
  function Numbered(c: Collision, n: nat): set<string> {
    if n == 0 then {} else Numbered(c, n - 1) + {Candidate(c, n)}
  }

  lemma {:induction false} NumberedIs(c: Collision, n: nat, name: string)
    ensures name in Numbered(c, n) <==> exists k: nat :: 1 <= k <= n && Candidate(c, k) == name
  {
    if n > 0 { NumberedIs(c, n - 1, name); }
  }

  lemma {:induction false} NumberedSize(c: Collision, n: nat)
    ensures |Numbered(c, n)| == n
  {
    if n > 0 {
      NumberedSize(c, n - 1);
      NumberedIs(c, n - 1, Candidate(c, n));
      if k: nat :| 1 <= k <= n - 1 && Candidate(c, k) == Candidate(c, n) {
        CandidatesDiffer(c, k, n);
      }
    }
  }

  lemma NamesInUse(catalog: Catalog, name: string)
    ensures name in Names(catalog) <==> InUse(catalog, name)
  {
  }

  /** There are more candidates than names. */
  lemma SomeCandidateIsFree(catalog: Catalog, c: Collision)
    ensures exists k: nat :: k <= |catalog| + 1 && !InUse(catalog, Candidate(c, k))
  {
    var n := |catalog| + 1;
    if forall k: nat | 1 <= k <= n :: InUse(catalog, Candidate(c, k)) {
      forall name | name in Numbered(c, n) ensures name in Names(catalog) {
        NumberedIs(c, n, name);
        NamesInUse(catalog, name);
      }
      SubsetSize(Numbered(c, n), Names(catalog));
      NumberedSize(c, n);
      FewNames(catalog);
      assert false;
    }
  }

  predicate FirstFree(catalog: Catalog, c: Collision, k: nat) {
    && !InUse(catalog, Candidate(c, k))
    && forall j: nat | j < k :: InUse(catalog, Candidate(c, j))
  }

  lemma {:induction false} FirstFreeBelow(catalog: Catalog, c: Collision, k: nat) returns (first: nat)
    requires !InUse(catalog, Candidate(c, k))
    ensures first <= k && FirstFree(catalog, c, first)
    decreases k
  {
    if j: nat :| j < k && !InUse(catalog, Candidate(c, j)) {
      first := FirstFreeBelow(catalog, c, j);
    } else {
      first := k;
    }
  }

  /** The serial the search ends at. */
  ghost function Serial(catalog: Catalog, c: Collision): (k: nat)
    ensures FirstFree(catalog, c, k) && k <= |catalog| + 1
  {
    SerialExists(catalog, c);
    var k: nat :| FirstFree(catalog, c, k) && k <= |catalog| + 1;
    k
  }

  lemma SerialExists(catalog: Catalog, c: Collision)
    ensures exists k: nat :: FirstFree(catalog, c, k) && k <= |catalog| + 1
  {
    SomeCandidateIsFree(catalog, c);
    var k: nat :| k <= |catalog| + 1 && !InUse(catalog, Candidate(c, k));
    var first := FirstFreeBelow(catalog, c, k);
  }

  lemma SerialUnique(catalog: Catalog, c: Collision, k: nat)
    requires FirstFree(catalog, c, k)
    ensures k == Serial(catalog, c)
  {
    var first := Serial(catalog, c);
    assert k < first ==> InUse(catalog, Candidate(c, k));
  }

  // ---- The repair -----------------------------------------------------------------

  ghost function NewName(catalog: Catalog, c: Collision): string {
    Candidate(c, Serial(catalog, c))
  }

  function Renamed(catalog: Catalog, id: string, name: string): Catalog {
    if id in catalog then catalog[id := catalog[id].(canonical := name, normalized := name)] else catalog
  }

  /** All collisions in turn; a name wider than its column aborts everything. */
  ghost function Repaired(catalog: Catalog, cs: seq<Collision>): Option<Catalog>
    decreases |cs|
  {
    if cs == [] then Some(catalog)
    else
      var before :- Repaired(catalog, cs[..|cs| - 1]);
      var c := cs[|cs| - 1];
      if |NewName(before, c)| > WIDTH then None else Some(Renamed(before, c.id, NewName(before, c)))
  }

  class CatalogTable {
    var identities: Catalog

    constructor (identities: Catalog)
      ensures this.identities == identities
    {
      this.identities := identities;
    }

    /** The search for a free name. */
    method FreeName(c: Collision) returns (candidate: string)
      ensures candidate == NewName(identities, c)
    {
      candidate := Candidate(c, 0);
      var serial: nat := 1;
      while InUse(identities, candidate)
        invariant serial >= 1 && candidate == Candidate(c, serial - 1)
        invariant forall j: nat | j < serial - 1 :: InUse(identities, Candidate(c, j))
        decreases Serial(identities, c) + 1 - serial
      {
        assert Serial(identities, c) < serial - 1 ==> InUse(identities, Candidate(c, Serial(identities, c)));
        candidate := Left(c.name, 70) + "-" + Suffix(c.id) + "-" + Decimal.Digits(serial);
        serial := serial + 1;
      }
      SerialUnique(identities, c, serial - 1);
    }

    method Upgrade(sources: seq<Source>) returns (ok: bool)
      requires Distinct(identities)
      modifies this
      ensures var r := Repaired(old(identities), Collisions(sources, old(identities)));
              ok == r.Some? && identities == if ok then r.value else old(identities)
      ensures Distinct(identities) && identities.Keys == old(identities).Keys
    {
      var before := identities;
      var cs := Collisions(sources, identities);
      for i := 0 to |cs|
        invariant Repaired(before, cs[..i]) == Some(identities)
      {
        var c := cs[i];
        var candidate := FreeName(c);
        OneMoreRound(before, cs, i, identities);
        if |candidate| > WIDTH {
          AbortedEarly(before, cs, i + 1);
          identities := before;
          return false;
        }
        identities := Renamed(identities, c.id, candidate);
      }
      assert cs[..|cs|] == cs;
      RepairKeepsNamesDistinct(before, cs);
      return true;
    }
  }

  lemma OneMoreRound(catalog: Catalog, cs: seq<Collision>, i: nat, before: Catalog)
    requires i < |cs| && Repaired(catalog, cs[..i]) == Some(before)
    ensures var name := NewName(before, cs[i]);
            Repaired(catalog, cs[..i + 1])
            == if |name| > WIDTH then None else Some(Renamed(before, cs[i].id, name))
  {
    assert cs[..i + 1][..i] == cs[..i] && cs[..i + 1][i] == cs[i];
  }

  lemma {:induction false} AbortedEarly(catalog: Catalog, cs: seq<Collision>, i: nat)
    requires i <= |cs| && Repaired(catalog, cs[..i]).None?
    ensures Repaired(catalog, cs).None?
    decreases |cs|
  {
    if i == |cs| {
      assert cs[..i] == cs;
    } else {
      var init := cs[..|cs| - 1];
      assert init[..i] == cs[..i];
      AbortedEarly(catalog, init, i);
    }
  }

  lemma RenamedDistinct(catalog: Catalog, id: string, name: string)
    requires Distinct(catalog) && !InUse(catalog, name)
    ensures Distinct(Renamed(catalog, id, name))
  {
  }

  /** Every round keeps all names pairwise distinct. */
  lemma {:induction false} RepairKeepsNamesDistinct(catalog: Catalog, cs: seq<Collision>)
    requires Distinct(catalog) && Repaired(catalog, cs).Some?
    ensures Distinct(Repaired(catalog, cs).value)
    ensures Repaired(catalog, cs).value.Keys == catalog.Keys
    decreases |cs|
  {
    if cs != [] {
      var init, c := cs[..|cs| - 1], cs[|cs| - 1];
      RepairKeepsNamesDistinct(catalog, init);
      var before := Repaired(catalog, init).value;
      RenamedDistinct(before, c.id, NewName(before, c));
    }
  }

  /** The identity holds a candidate of one of its collisions. */
  ghost predicate Moved(catalog: Catalog, cs: seq<Collision>, id: string)
    requires id in catalog
  {
    exists c, k: nat | c in cs :: c.id == id && catalog[id].canonical == catalog[id].normalized == Candidate(c, k)
  }

  /** What a repaired identity looks like: owners stay, identities without a collision stay,
      and the others end on a candidate of one of their collisions, in both spellings. */
  lemma {:induction false} RepairedIdentity(catalog: Catalog, cs: seq<Collision>, id: string)
    requires Repaired(catalog, cs).Some? && id in catalog
    ensures var after := Repaired(catalog, cs).value;
            && id in after && after[id].owner == catalog[id].owner
            && ((after[id] == catalog[id] && forall c | c in cs :: c.id != id) || Moved(after, cs, id))
    decreases |cs|
  {
    if cs != [] {
      var init, c := cs[..|cs| - 1], cs[|cs| - 1];
      assert cs == init + [c];
      RepairedOneMore(catalog, init, c);
      RepairedIdentity(catalog, init, id);
      OneMoreMove(Repaired(catalog, init).value, init, c, id);
    }
  }

  lemma OneMoreMove(before: Catalog, init: seq<Collision>, c: Collision, id: string)
    requires id in before
    ensures var after := Renamed(before, c.id, NewName(before, c));
            && id in after && after[id].owner == before[id].owner
            && (c.id == id ==> Moved(after, init + [c], id))
            && (c.id != id ==> after[id] == before[id] && (Moved(before, init, id) ==> Moved(after, init + [c], id)))
  {
    var after := Renamed(before, c.id, NewName(before, c));
    assert c in init + [c];
    if c.id == id {
      assert after[id].normalized == Candidate(c, Serial(before, c));
    } else if d, k: nat :| d in init && d.id == id && before[id].canonical == before[id].normalized == Candidate(d, k) {
      assert d in init + [c] && after[id].normalized == Candidate(d, k);
    }
  }

  lemma UntouchedIsFree(sources: seq<Source>, catalog: Catalog, after: Catalog, s: Source, id: string)
    requires Distinct(catalog) && s in sources && id in catalog && id in after && after[id] == catalog[id]
    requires forall c | c in Collisions(sources, catalog) :: c.id != id
    ensures !Collides(s, after, id)
  {
    assert Collides(s, catalog, id) ==> Collision(s.canonical.value, id) in Collisions(sources, catalog);
  }

  /** The name of the last round that moved the identity: its first free candidate then. */
  ghost function LastName(catalog: Catalog, cs: seq<Collision>, id: string): Option<string>
    requires Repaired(catalog, cs).Some?
    decreases |cs|
  {
    if cs == [] then None
    else
      var init, c := cs[..|cs| - 1], cs[|cs| - 1];
      if c.id == id then Some(NewName(Repaired(catalog, init).value, c)) else LastName(catalog, init, id)
  }

  /** The identity after rounds that last moved it to the given name, if they did. */
  ghost predicate Holds(before: Identity, after: Catalog, cs: seq<Collision>, id: string, last: Option<string>) {
    && id in after && after[id].owner == before.owner
    && (last.None? ==> after[id] == before && forall c | c in cs :: c.id != id)
    && (last.Some? ==> after[id].canonical == after[id].normalized == last.value)
  }

  lemma HoldsOneMore(before: Identity, catalog: Catalog, init: seq<Collision>, c: Collision, id: string,
                     last: Option<string>, name: string)
    requires Holds(before, catalog, init, id, last)
    ensures Holds(before, Renamed(catalog, c.id, name), init + [c], id, if c.id == id then Some(name) else last)
  {
    var after := Renamed(catalog, c.id, name);
    assert c.id != id ==> after[id] == catalog[id];
  }

  lemma RepairedOneMore(catalog: Catalog, init: seq<Collision>, c: Collision)
    requires Repaired(catalog, init + [c]).Some?
    ensures Repaired(catalog, init).Some?
    ensures var before := Repaired(catalog, init).value;
            Repaired(catalog, init + [c]).value == Renamed(before, c.id, NewName(before, c))
  {
    assert (init + [c])[..|init|] == init;
  }

  lemma LastNameOneMore(catalog: Catalog, init: seq<Collision>, c: Collision, id: string)
    requires Repaired(catalog, init + [c]).Some? && Repaired(catalog, init).Some?
    ensures LastName(catalog, init + [c], id)
         == if c.id == id then Some(NewName(Repaired(catalog, init).value, c)) else LastName(catalog, init, id)
  {
    assert (init + [c])[..|init|] == init;
  }

  lemma {:induction false} LastNameHeld(catalog: Catalog, cs: seq<Collision>, id: string)
    requires Repaired(catalog, cs).Some? && id in catalog
    ensures Holds(catalog[id], Repaired(catalog, cs).value, cs, id, LastName(catalog, cs, id))
    decreases |cs|
  {
    if cs == [] {
      assert Holds(catalog[id], catalog, [], id, None);
    } else {
      var init, c := cs[..|cs| - 1], cs[|cs| - 1];
      assert cs == init + [c];
      RepairedOneMore(catalog, init, c);
      LastNameHeld(catalog, init, id);
      LastNameOneMore(catalog, init, c, id);
      var before := Repaired(catalog, init).value;
      HoldsOneMore(catalog[id], before, init, c, id, LastName(catalog, init, id), NewName(before, c));
    }
  }

  /** Among the first n rounds, round i is the last for its identity. */
  predicate LastRound(cs: seq<Collision>, i: nat, n: nat)
    requires n <= |cs|
  {
    i < n && forall j | i < j < n :: cs[j].id != cs[i].id
  }

  lemma {:induction false} FindLastRound(catalog: Catalog, cs: seq<Collision>, id: string) returns (i: nat)
    requires Repaired(catalog, cs).Some? && LastName(catalog, cs, id).Some?
    ensures LastRound(cs, i, |cs|) && cs[i].id == id
    decreases |cs|
  {
    var n := |cs| - 1;
    if cs[n].id == id {
      i := n;
    } else {
      i := FindLastRound(catalog, cs[..n], id);
      assert forall j | i < j < n :: cs[..n][j] == cs[j];
    }
  }

  lemma {:induction false} LastNameAt(catalog: Catalog, cs: seq<Collision>, i: nat)
    requires Repaired(catalog, cs).Some? && LastRound(cs, i, |cs|)
    ensures Repaired(catalog, cs[..i]).Some?
    ensures LastName(catalog, cs, cs[i].id) == Some(NewName(Repaired(catalog, cs[..i]).value, cs[i]))
    decreases |cs|
  {
    if i + 1 < |cs| {
      var init := cs[..|cs| - 1];
      assert init[..i] == cs[..i];
      LastNameAt(catalog, init, i);
    }
  }

  lemma {:induction false} NeverMoved(catalog: Catalog, cs: seq<Collision>, id: string)
    requires Repaired(catalog, cs).Some? && forall c | c in cs :: c.id != id
    ensures LastName(catalog, cs, id).None?
    decreases |cs|
  {
    if cs != [] {
      assert cs[|cs| - 1] in cs;
      NeverMoved(catalog, cs[..|cs| - 1], id);
    }
  }

  // ---- Which candidate is free, from the names before the repair ------------------

  /** The name is held at first, by an identity that the first i rounds leave alone. */
  ghost predicate Stays(catalog: Catalog, cs: seq<Collision>, i: nat, name: string)
    requires i <= |cs|
  {
    exists id | id in catalog :: catalog[id].normalized == name && forall c | c in cs[..i] :: c.id != id
  }

  /** Round i finds the name taken: it stays where it was, or an earlier round, the last for
      its identity, has ended at it. */
  ghost predicate Taken(catalog: Catalog, cs: seq<Collision>, i: nat, name: string)
    requires i <= |cs|
    decreases i, 0
  {
    || Stays(catalog, cs, i, name)
    || exists m, k: nat | 0 <= m < i ::
         LastRound(cs, m, i) && cs[m].id in catalog && Ends(catalog, cs, m, k) && Candidate(cs[m], k) == name
  }

  /** Round i ends at its first candidate that is not taken. */
  ghost predicate Ends(catalog: Catalog, cs: seq<Collision>, i: nat, k: nat)
    requires i < |cs|
    decreases i, 1
  {
    && !Taken(catalog, cs, i, Candidate(cs[i], k))
    && forall j: nat | j < k :: Taken(catalog, cs, i, Candidate(cs[i], j))
  }

  lemma {:induction false} HolderTakes(catalog: Catalog, cs: seq<Collision>, i: nat, name: string, id: string)
    requires Distinct(catalog) && i <= |cs| && Repaired(catalog, cs[..i]).Some? && id in catalog
    requires var after := Repaired(catalog, cs[..i]).value; id in after && after[id].normalized == name
    ensures Taken(catalog, cs, i, name)
    decreases i, 0
  {
    var init := cs[..i];
    LastNameHeld(catalog, init, id);
    if LastName(catalog, init, id).Some? {
      var m := FindLastRound(catalog, init, id);
      LastNameAt(catalog, init, m);
      assert init[..m] == cs[..m] && init[m] == cs[m];
      assert forall j | m < j < i :: init[j] == cs[j];
      var k := Serial(Repaired(catalog, cs[..m]).value, cs[m]);
      FirstFreeThen(catalog, cs, m, k);
      assert LastRound(cs, m, i);
    }
  }

  lemma StayerHolds(catalog: Catalog, cs: seq<Collision>, i: nat, id: string)
    requires i <= |cs| && Repaired(catalog, cs[..i]).Some? && id in catalog
    requires forall c | c in cs[..i] :: c.id != id
    ensures id in Repaired(catalog, cs[..i]).value && Repaired(catalog, cs[..i]).value[id] == catalog[id]
  {
    NeverMoved(catalog, cs[..i], id);
    LastNameHeld(catalog, cs[..i], id);
  }

  lemma {:induction false} MoverHolds(catalog: Catalog, cs: seq<Collision>, i: nat, m: nat, k: nat)
    requires Distinct(catalog) && i <= |cs| && Repaired(catalog, cs[..i]).Some?
    requires LastRound(cs, m, i) && cs[m].id in catalog && Ends(catalog, cs, m, k)
    ensures var after := Repaired(catalog, cs[..i]).value;
            && cs[m].id in after && after[cs[m].id].owner == catalog[cs[m].id].owner
            && after[cs[m].id].normalized == Candidate(cs[m], k)
    decreases i, 0
  {
    var init := cs[..i];
    assert init[..m] == cs[..m] && init[m] == cs[m];
    assert forall j | m < j < i :: init[j] == cs[j];
    LastNameAt(catalog, init, m);
    LastNameHeld(catalog, init, cs[m].id);
    FirstFreeThen(catalog, cs, m, k);
    SerialUnique(Repaired(catalog, cs[..m]).value, cs[m], k);
  }

  lemma {:induction false} InUseThen(catalog: Catalog, cs: seq<Collision>, i: nat, name: string)
    requires Distinct(catalog) && i <= |cs| && Repaired(catalog, cs[..i]).Some?
    ensures InUse(Repaired(catalog, cs[..i]).value, name) <==> Taken(catalog, cs, i, name)
    decreases i, 1
  {
    var after := Repaired(catalog, cs[..i]).value;
    RepairKeepsNamesDistinct(catalog, cs[..i]);
    if id :| id in after && after[id].normalized == name {
      HolderTakes(catalog, cs, i, name, id);
    }
    if id :| id in catalog && catalog[id].normalized == name && forall c | c in cs[..i] :: c.id != id {
      StayerHolds(catalog, cs, i, id);
    }
    if m, k: nat :| 0 <= m < i && LastRound(cs, m, i) && cs[m].id in catalog
                    && Ends(catalog, cs, m, k) && Candidate(cs[m], k) == name
    {
      MoverHolds(catalog, cs, i, m, k);
    }
  }

  /** Where a round's search ends, said of the catalog before the repair. */
  lemma {:induction false} FirstFreeThen(catalog: Catalog, cs: seq<Collision>, i: nat, k: nat)
    requires Distinct(catalog) && i < |cs| && Repaired(catalog, cs[..i]).Some?
    ensures FirstFree(Repaired(catalog, cs[..i]).value, cs[i], k) <==> Ends(catalog, cs, i, k)
    decreases i, 2
  {
    forall j: nat
      ensures InUse(Repaired(catalog, cs[..i]).value, Candidate(cs[i], j)) <==>
              Taken(catalog, cs, i, Candidate(cs[i], j))
    {
      InUseThen(catalog, cs, i, Candidate(cs[i], j));
    }
  }

  /** Where no earlier round has a candidate in common with round i, as far as any search
      goes, only the names that stay count. */
  ghost predicate Apart(catalog: Catalog, cs: seq<Collision>, i: nat)
    requires i < |cs|
  {
    forall m, k: nat, l: nat | 0 <= m < i && k <= |catalog| + 1 && l <= |catalog| + 1 ::
      Candidate(cs[m], k) != Candidate(cs[i], l)
  }

  lemma EndsWithin(catalog: Catalog, cs: seq<Collision>, i: nat, k: nat)
    requires Distinct(catalog) && i < |cs| && Repaired(catalog, cs[..i]).Some? && Ends(catalog, cs, i, k)
    ensures k <= |catalog| + 1
  {
    FirstFreeThen(catalog, cs, i, k);
    var before := Repaired(catalog, cs[..i]).value;
    SerialUnique(before, cs[i], k);
    RepairKeepsNamesDistinct(catalog, cs[..i]);
    assert |before| == |before.Keys| == |catalog.Keys|;
  }

  lemma {:induction false} RepairedBefore(catalog: Catalog, cs: seq<Collision>, i: nat)
    requires i <= |cs| && Repaired(catalog, cs).Some?
    ensures Repaired(catalog, cs[..i]).Some?
  {
    if Repaired(catalog, cs[..i]).None? { AbortedEarly(catalog, cs, i); }
  }

  lemma TakenWhenApart(catalog: Catalog, cs: seq<Collision>, i: nat, k: nat)
    requires Distinct(catalog) && i < |cs| && Repaired(catalog, cs[..i]).Some? && Apart(catalog, cs, i)
    requires k <= |catalog| + 1
    ensures Taken(catalog, cs, i, Candidate(cs[i], k)) <==> Stays(catalog, cs, i, Candidate(cs[i], k))
  {
    forall m, l: nat | 0 <= m < i && Ends(catalog, cs, m, l) ensures Candidate(cs[m], l) != Candidate(cs[i], k) {
      RepairedBefore(catalog, cs[..i], m);
      assert cs[..i][..m] == cs[..m];
      EndsWithin(catalog, cs, m, l);
    }
  }

  lemma EndsWhenApart(catalog: Catalog, cs: seq<Collision>, i: nat, k: nat)
    requires Distinct(catalog) && i < |cs| && Repaired(catalog, cs[..i]).Some? && Apart(catalog, cs, i)
    ensures Ends(catalog, cs, i, k) <==>
            && !Stays(catalog, cs, i, Candidate(cs[i], k))
            && forall j: nat | j < k :: Stays(catalog, cs, i, Candidate(cs[i], j))
  {
    var end := Serial(Repaired(catalog, cs[..i]).value, cs[i]);
    FirstFreeThen(catalog, cs, i, end);
    EndsWithin(catalog, cs, i, end);
    forall j: nat | j <= end
      ensures Taken(catalog, cs, i, Candidate(cs[i], j)) <==> Stays(catalog, cs, i, Candidate(cs[i], j))
    {
      TakenWhenApart(catalog, cs, i, j);
    }
    if Ends(catalog, cs, i, k) { EndsUnique(catalog, cs, i, k, end); }
  }

  lemma EndsUnique(catalog: Catalog, cs: seq<Collision>, i: nat, j: nat, k: nat)
    requires i < |cs| && Ends(catalog, cs, i, j) && Ends(catalog, cs, i, k)
    ensures j == k
  {
  }

  // ---- Which names the repair frees -----------------------------------------------

  predicate Active(s: Source) {
    s.canonical.Some? && s.inventory != "removed" && s.inventory != "transferred"
  }

  /** Round i is the last for its identity, and ends at the name of an active source that the
      identity is foreign to: said of the catalog before the repair. */
  ghost predicate Retakes(s: Source, catalog: Catalog, cs: seq<Collision>, i: nat, k: nat)
    requires i < |cs|
  {
    && Active(s) && s.canonical.value == Candidate(cs[i], k)
    && Ends(catalog, cs, i, k) && LastRound(cs, i, |cs|)
    && cs[i].id in catalog && cs[i].id != s.stableId && catalog[cs[i].id].owner != s.owner
  }

  lemma MovedTo(catalog: Catalog, cs: seq<Collision>, i: nat) returns (k: nat)
    requires Distinct(catalog) && Repaired(catalog, cs).Some? && LastRound(cs, i, |cs|) && cs[i].id in catalog
    ensures Ends(catalog, cs, i, k)
    ensures var after := Repaired(catalog, cs).value;
            && cs[i].id in after && after[cs[i].id].owner == catalog[cs[i].id].owner
            && after[cs[i].id].normalized == Candidate(cs[i], k)
  {
    assert cs[..|cs|] == cs;
    RepairedBefore(catalog, cs, i);
    k := Serial(Repaired(catalog, cs[..i]).value, cs[i]);
    FirstFreeThen(catalog, cs, i, k);
    MoverHolds(catalog, cs, |cs|, i, k);
  }

  lemma StillForeign(sources: seq<Source>, catalog: Catalog, s: Source, id: string) returns (i: nat, k: nat)
    requires Distinct(catalog) && s in sources && Repaired(catalog, Collisions(sources, catalog)).Some?
    requires Collides(s, Repaired(catalog, Collisions(sources, catalog)).value, id) && id in catalog
    ensures var cs := Collisions(sources, catalog);
            i < |cs| && cs[i].id == id && Retakes(s, catalog, cs, i, k)
  {
    var cs := Collisions(sources, catalog);
    LastNameHeld(catalog, cs, id);
    if LastName(catalog, cs, id).None? {
      UntouchedIsFree(sources, catalog, Repaired(catalog, cs).value, s, id);
    }
    i := FindLastRound(catalog, cs, id);
    k := MovedTo(catalog, cs, i);
  }

  /** After the repair somebody else holds an active source's name exactly when their last
      round ends at that name. */
  lemma RepairTakesNameExactly(sources: seq<Source>, catalog: Catalog, s: Source, id: string)
    requires Distinct(catalog) && s in sources && Repaired(catalog, Collisions(sources, catalog)).Some?
    ensures var cs := Collisions(sources, catalog);
            Collides(s, Repaired(catalog, cs).value, id) <==>
            exists i, k: nat | 0 <= i < |cs| :: cs[i].id == id && Retakes(s, catalog, cs, i, k)
  {
    var cs := Collisions(sources, catalog);
    RepairKeepsNamesDistinct(catalog, cs);
    if i, k: nat :| 0 <= i < |cs| && cs[i].id == id && Retakes(s, catalog, cs, i, k) {
      var l := MovedTo(catalog, cs, i);
      EndsUnique(catalog, cs, i, k, l);
    }
    if Collides(s, Repaired(catalog, cs).value, id) {
      var i, k := StillForeign(sources, catalog, s, id);
    }
  }

  /** The repair frees every name that an active source needs exactly when no identity's last
      round ends at such a name. */
  lemma RepairFreesExactly(sources: seq<Source>, catalog: Catalog)
    requires Distinct(catalog) && Repaired(catalog, Collisions(sources, catalog)).Some?
    ensures var cs := Collisions(sources, catalog);
            (forall s, id | s in sources :: !Collides(s, Repaired(catalog, cs).value, id)) <==>
            (forall s, i, k: nat | s in sources && 0 <= i < |cs| :: !Retakes(s, catalog, cs, i, k))
  {
    var cs := Collisions(sources, catalog);
    var after := Repaired(catalog, cs).value;
    if s, id :| s in sources && Collides(s, after, id) {
      RepairTakesNameExactly(sources, catalog, s, id);
    }
    if s, i, k: nat :| s in sources && 0 <= i < |cs| && Retakes(s, catalog, cs, i, k) {
      RepairTakesNameExactly(sources, catalog, s, cs[i].id);
    }
  }

  // ---- Where the repair falls short -----------------------------------------------

  const FREED := "foo-b2"

  /** Two sources; the second's squatter moves to the name the first has just been given. */
  const SOURCES: seq<Source> := [
    Source("official-1", Some(FREED), "present", "official"),
    Source("official-2", Some("foo"), "present", "official")]

  const SQUATTED: Catalog := map[
    "y1" := Identity("first", FREED, FREED),
    "b2" := Identity("second", "foo", "foo")]

  lemma SuffixOfShort(id: string)
    requires |id| <= 8 && forall i | 0 <= i < |id| :: 'a' <= id[i] <= 'z' || '0' <= id[i] <= '9'
    ensures Suffix(id) == id
  {
    Plain(id);
  }

  lemma {:induction false} Plain(s: string)
    requires forall i | 0 <= i < |s| :: 'a' <= s[i] <= 'z' || '0' <= s[i] <= '9'
    ensures OnlyAlphanumeric(s) == s && Lower(s) == s
  {
    if s != "" {
      Plain(s[1..]);
      assert s == [s[0]] + s[1..];
    }
  }

  lemma FirstCandidateFree(catalog: Catalog, c: Collision)
    requires !InUse(catalog, Candidate(c, 0))
    ensures NewName(catalog, c) == Candidate(c, 0)
  {
    assert FirstFree(catalog, c, 0);
    SerialUnique(catalog, c, 0);
  }

  lemma FirstCandidateRound(catalog: Catalog, cs: seq<Collision>, before: Catalog, c: Collision)
    requires Repaired(catalog, cs) == Some(before) && !InUse(before, Candidate(c, 0))
    ensures Repaired(catalog, cs + [c]) == Some(Renamed(before, c.id, Candidate(c, 0)))
  {
    FirstCandidateFree(before, c);
    assert (cs + [c])[..|cs|] == cs;
  }

  lemma TwoRounds(catalog: Catalog, a: Collision, b: Collision)
    requires catalog.Keys == {a.id, b.id} && a.id != b.id && Distinct(catalog)
    requires catalog[a.id].normalized == a.name && catalog[b.id].normalized == b.name
    requires Candidate(b, 0) == a.name != Candidate(a, 0) && Candidate(a, 0) != b.name
    ensures Repaired(catalog, [a, b]).Some? && b.id in Repaired(catalog, [a, b]).value
    ensures Repaired(catalog, [a, b]).value[b.id] == Identity(catalog[b.id].owner, a.name, a.name)
  {
    var moved := Candidate(a, 0);
    NotInUse(catalog, a.id, b.id, moved);
    FirstCandidateRound(catalog, [], catalog, a);
    assert [] + [a] == [a] && [a] + [b] == [a, b];
    var between := Renamed(catalog, a.id, moved);
    NotInUse(between, a.id, b.id, a.name);
    FirstCandidateRound(catalog, [a], between, b);
  }

  lemma NotInUse(catalog: Catalog, i: string, j: string, name: string)
    requires catalog.Keys == {i, j} && catalog[i].normalized != name && catalog[j].normalized != name
    ensures !InUse(catalog, name)
  {
  }

  lemma FirstCandidateOfShort(c: Collision)
    requires |c.id| <= 8 && forall i | 0 <= i < |c.id| :: 'a' <= c.id[i] <= 'z' || '0' <= c.id[i] <= '9'
    requires |c.name| <= 71
    ensures Candidate(c, 0) == c.name + "-" + c.id
  {
    SuffixOfShort(c.id);
  }

  lemma SquattedCandidates(a: Collision, b: Collision)
    requires a.name == FREED && a.id == "y1" && b.name == "foo" && b.id == "b2"
    ensures Candidate(b, 0) == a.name && |Candidate(a, 0)| > |a.name|
  {
    FirstCandidateOfShort(a);
    FirstCandidateOfShort(b);
    assert "foo" + "-" == "foo-";
    assert "foo-" + "b2" == FREED;
  }

  lemma NowHolds(s: Source, catalog: Catalog, id: string)
    requires s.canonical.Some? && s.inventory == "present" && id != s.stableId && id in catalog
    requires catalog[id].normalized == s.canonical.value && catalog[id].owner != s.owner
    ensures Collides(s, catalog, id)
  {
  }

  lemma Squatted(a: Collision, b: Collision)
    requires a == Collision(FREED, "y1") && b == Collision("foo", "b2")
    ensures SQUATTED.Keys == {a.id, b.id} && a.id != b.id && Distinct(SQUATTED) && b.name != a.name
    ensures SQUATTED[a.id].normalized == a.name && SQUATTED[b.id] == Identity("second", b.name, b.name)
  {
  }

  lemma TakenAgain(catalog: Catalog, s: Source, a: Collision, b: Collision)
    requires a == Collision(FREED, "y1") && b == Collision("foo", "b2")
    requires catalog == SQUATTED && s == Source("official-1", Some(FREED), "present", "official")
    ensures Repaired(catalog, [a, b]).Some?
    ensures Collides(s, Repaired(catalog, [a, b]).value, b.id)
  {
    Squatted(a, b);
    SquattedCandidates(a, b);
    TwoRounds(catalog, a, b);
    NowHolds(s, Repaired(catalog, [a, b]).value, b.id);
  }

  /** The second source's squatter ends on the first source's name. */
  lemma FreedNameIsTakenAgain()
    ensures Distinct(SQUATTED)
    ensures Repaired(SQUATTED, Collisions(SOURCES, SQUATTED)).Some?
    ensures Collides(SOURCES[0], Repaired(SQUATTED, Collisions(SOURCES, SQUATTED)).value, "b2")
  {
    var a, b := Collision(FREED, "y1"), Collision("foo", "b2");
    CollisionsOfSquatted(a, b);
    TakenAgain(SQUATTED, SOURCES[0], a, b);
  }

  lemma CollisionsOfSquatted(a: Collision, b: Collision)
    requires a == Collision(FREED, "y1") && b == Collision("foo", "b2")
    ensures Distinct(SQUATTED) && Collisions(SOURCES, SQUATTED) == [a, b]
  {
    assert Collides(SOURCES[0], SQUATTED, a.id) && !Collides(SOURCES[0], SQUATTED, b.id);
    assert Collides(SOURCES[1], SQUATTED, b.id) && !Collides(SOURCES[1], SQUATTED, a.id);
    assert SOURCES[1..] == [SOURCES[1]] && SOURCES[1..][1..] == [];
    assert Collisions(SOURCES[1..], SQUATTED) == [b];
  }

  // ---- When the repair does not go through ----------------------------------------

  /** Some candidate after the first is taken for the round, and it is wider than its column. */
  ghost predicate RoundAborts(catalog: Catalog, c: Collision) {
    && InUse(catalog, Candidate(c, 0))
    && |Left(c.name, 70)| + |Suffix(c.id)| + 2 + |Decimal.Digits(Serial(catalog, c))| > 80
  }

  lemma RoundWidth(catalog: Catalog, c: Collision)
    ensures |NewName(catalog, c)| > WIDTH <==> RoundAborts(catalog, c)
  {
    if !InUse(catalog, Candidate(c, 0)) { FirstCandidateFree(catalog, c); }
  }

  /** A single collision aborts the repair exactly when its first candidate is taken and the
      first free one is too wide: always, once the first is taken, for a name of 70
      characters and a full suffix. */
  lemma LongNameAborts(catalog: Catalog, c: Collision)
    ensures Repaired(catalog, [c]).None? <==> RoundAborts(catalog, c)
    ensures |c.name| >= 70 && |Suffix(c.id)| == 8 ==>
              (Repaired(catalog, [c]).None? <==> InUse(catalog, Candidate(c, 0)))
  {
    assert [c][..0] == [];
    RoundWidth(catalog, c);
  }

  /** Round i is reached and aborts in the catalog it finds. */
  ghost predicate AbortsAt(catalog: Catalog, cs: seq<Collision>, i: nat)
    requires i < |cs|
  {
    Repaired(catalog, cs[..i]).Some? && RoundAborts(Repaired(catalog, cs[..i]).value, cs[i])
  }

  lemma AbortsFrom(catalog: Catalog, cs: seq<Collision>, i: nat)
    requires i < |cs| && AbortsAt(catalog, cs, i)
    ensures Repaired(catalog, cs).None?
  {
    var before := Repaired(catalog, cs[..i]).value;
    RoundWidth(before, cs[i]);
    OneMoreRound(catalog, cs, i, before);
    AbortedEarly(catalog, cs, i + 1);
  }

  lemma {:induction false} AbortingRound(catalog: Catalog, cs: seq<Collision>) returns (i: nat)
    requires Repaired(catalog, cs).None?
    ensures i < |cs| && AbortsAt(catalog, cs, i)
    decreases |cs|
  {
    var n := |cs| - 1;
    if Repaired(catalog, cs[..n]).None? {
      i := AbortingRound(catalog, cs[..n]);
      assert cs[..n][..i] == cs[..i] && cs[..n][i] == cs[i];
    } else {
      i := n;
      RoundWidth(Repaired(catalog, cs[..n]).value, cs[n]);
    }
  }

  /** The repair is aborted exactly when some round is. */
  lemma AbortsExactly(catalog: Catalog, cs: seq<Collision>)
    ensures Repaired(catalog, cs).None? <==> exists i | 0 <= i < |cs| :: AbortsAt(catalog, cs, i)
  {
    if Repaired(catalog, cs).None? { var i := AbortingRound(catalog, cs); }
    if i :| 0 <= i < |cs| && AbortsAt(catalog, cs, i) { AbortsFrom(catalog, cs, i); }
  }

  /** The same, said of the catalog before the repair. */
  lemma AbortsExactlyAtFirst(catalog: Catalog, cs: seq<Collision>)
    requires Distinct(catalog)
    ensures Repaired(catalog, cs).None? <==>
            exists i, k: nat | 0 <= i < |cs| :: Ends(catalog, cs, i, k) && |Candidate(cs[i], k)| > WIDTH
  {
    if Repaired(catalog, cs).None? {
      var i := AbortingRound(catalog, cs);
      var before := Repaired(catalog, cs[..i]).value;
      var k := Serial(before, cs[i]);
      RoundWidth(before, cs[i]);
      FirstFreeThen(catalog, cs, i, k);
    }
    if i, k: nat :| 0 <= i < |cs| && Ends(catalog, cs, i, k) && |Candidate(cs[i], k)| > WIDTH {
      EndsTooWide(catalog, cs, i, k);
    }
  }

  lemma EndsTooWide(catalog: Catalog, cs: seq<Collision>, i: nat, k: nat)
    requires Distinct(catalog) && i < |cs| && Ends(catalog, cs, i, k) && |Candidate(cs[i], k)| > WIDTH
    ensures Repaired(catalog, cs).None?
  {
    if Repaired(catalog, cs[..i]).None? {
      AbortedEarly(catalog, cs, i);
    } else {
      var before := Repaired(catalog, cs[..i]).value;
      FirstFreeThen(catalog, cs, i, k);
      SerialUnique(before, cs[i], k);
      OneMoreRound(catalog, cs, i, before);
      AbortedEarly(catalog, cs, i + 1);
    }
  }
}
