/** Flattening of inherited roles: a recursive query walks the parent edges, and every role
    receives what it used to inherit. The parent graph may be cyclic, and a parent may be
    missing. */
module RoleFlattening {
  import opened Sets
  import opened Wrappers

  datatype RoleName = RoleName(organization: string, name: string)

  datatype Grant = Grant(role: RoleName, permission: string)

  /** A parent is named within the organization of its role. */
  type Parents = map<RoleName, Option<string>>

  function Parent(parents: Parents, role: RoleName): Option<RoleName> {
    if role in parents && parents[role].Some?
    then Some(RoleName(role.organization, parents[role].value)) else None
  }

  /** The n-th role above. */
  function Up(parents: Parents, role: RoleName, n: nat): Option<RoleName> {
    if n == 0 then Some(role)
    else
      var below :- Up(parents, role, n - 1);
      Parent(parents, below)
  }

  ghost predicate Ancestor(parents: Parents, role: RoleName, above: RoleName) {
    exists n: nat :: n >= 1 && Up(parents, role, n) == Some(above)
  }

  /** The inherited set: a role's own rows and those of every role above it. */
  ghost predicate Inherits(parents: Parents, grants: set<Grant>, role: RoleName, permission: string) {
    || Grant(role, permission) in grants
    || exists above :: Ancestor(parents, role, above) && Grant(above, permission) in grants
  }

  // ---- The walk -------------------------------------------------------------------

  datatype Row = Row(role: RoleName, ancestor: RoleName, seen: seq<string>)

  function FirstRows(parents: Parents): set<Row> {
    set r | r in parents && parents[r].Some? ::
      Row(r, RoleName(r.organization, parents[r].value), [r.name])
  }

  /** The recursive term: join the working table with the roles. */
  function NextRows(parents: Parents, working: set<Row>): set<Row> {
    set w | w in working && w.ancestor in parents && parents[w.ancestor].Some? && w.ancestor.name !in w.seen ::
      Row(w.role, RoleName(w.role.organization, parents[w.ancestor].value), w.seen + [w.ancestor.name])
  }

  lemma {:induction false} UpPrefix(parents: Parents, role: RoleName, n: nat, i: nat)
    requires i <= n && Up(parents, role, n).Some?
    ensures Up(parents, role, i).Some? && Up(parents, role, i).value.organization == role.organization
    ensures i < n ==> Up(parents, role, i).value in parents
    decreases n
  {
    if n > 0 {
      if i < n { UpPrefix(parents, role, n - 1, i); } else { UpPrefix(parents, role, n - 1, n - 1); }
    }
  }

  /** The names from the role itself up to the k-th role above. */
  function Seen(parents: Parents, role: RoleName, k: nat): seq<string>
    requires Up(parents, role, k).Some?
  {
    (if k == 0 then [] else Seen(parents, role, k - 1)) + [Up(parents, role, k).value.name]
  }

  /** No name repeats up to the k-th role above. */
  predicate Fresh(parents: Parents, role: RoleName, k: nat)
    requires Up(parents, role, k).Some?
  {
    k == 0 ||
    (Fresh(parents, role, k - 1) && Up(parents, role, k).value.name !in Seen(parents, role, k - 1))
  }

  predicate OnWalk(parents: Parents, role: RoleName, k: nat) {
    Up(parents, role, k).Some? && Up(parents, role, k + 1).Some? && Fresh(parents, role, k)
  }

  lemma {:induction false} SeenBefore(parents: Parents, role: RoleName, k: nat, name: string) returns (i: nat)
    requires Up(parents, role, k).Some? && name in Seen(parents, role, k)
    ensures i <= k && Up(parents, role, i).Some? && Up(parents, role, i).value.name == name
  {
    if Up(parents, role, k).value.name == name { i := k; } else { i := SeenBefore(parents, role, k - 1, name); }
  }

  lemma {:induction false} NameSeen(parents: Parents, role: RoleName, k: nat, i: nat)
    requires Up(parents, role, k).Some? && i <= k
    ensures Up(parents, role, i).Some? && Up(parents, role, i).value.name in Seen(parents, role, k)
  {
    if i < k { NameSeen(parents, role, k - 1, i); }
  }

  /** A name can only repeat when a role does: a walk stays in its organization. */
  lemma {:induction false} Repeated(parents: Parents, role: RoleName, k: nat) returns (i: nat, j: nat)
    requires Up(parents, role, k).Some? && !Fresh(parents, role, k)
    ensures i < j <= k && Up(parents, role, i) == Up(parents, role, j)
  {
    if !Fresh(parents, role, k - 1) {
      i, j := Repeated(parents, role, k - 1);
    } else {
      j := k;
      i := SeenBefore(parents, role, k - 1, Up(parents, role, k).value.name);
      UpPrefix(parents, role, k, i);
      UpPrefix(parents, role, k, k);
    }
  }

  function RowAt(parents: Parents, role: RoleName, k: nat): Row
    requires OnWalk(parents, role, k)
  {
    Row(role, Up(parents, role, k + 1).value, Seen(parents, role, k))
  }

  predicate IsRowAt(parents: Parents, w: Row, k: nat) {
    w.role in parents && OnWalk(parents, w.role, k) && w == RowAt(parents, w.role, k)
  }

  ghost predicate RowsAt(parents: Parents, k: nat, rows: set<Row>) {
    forall w :: w in rows <==> IsRowAt(parents, w, k)
  }

  /** The rows of the first rounds. */
  ghost predicate Collected(parents: Parents, rounds: nat, rows: set<Row>) {
    forall w :: w in rows <==> exists k: nat :: k < rounds && IsRowAt(parents, w, k)
  }

  lemma FirstRowsMeaning(parents: Parents)
    ensures RowsAt(parents, 0, FirstRows(parents))
  {
    forall w ensures w in FirstRows(parents) <==> IsRowAt(parents, w, 0) {
      var r := w.role;
      assert Up(parents, r, 0) == Some(r) && Up(parents, r, 1) == Parent(parents, r);
      if r in parents && OnWalk(parents, r, 0) {
        assert RowAt(parents, r, 0) == Row(r, RoleName(r.organization, parents[r].value), [r.name]);
      }
      if w in FirstRows(parents) { assert OnWalk(parents, r, 0); }
    }
  }

  /** What one more step asks of a row. */
  lemma OneStepUp(parents: Parents, r: RoleName, k: nat)
    requires OnWalk(parents, r, k)
    ensures var w := RowAt(parents, r, k);
            && w.ancestor.organization == r.organization
            && (OnWalk(parents, r, k + 1) <==>
                  w.ancestor in parents && parents[w.ancestor].Some? && w.ancestor.name !in w.seen)
            && (OnWalk(parents, r, k + 1) ==> RowAt(parents, r, k + 1) == Advanced(parents, w))
  {
    UpPrefix(parents, r, k + 1, k + 1);
    var above := Up(parents, r, k + 1).value;
    assert Up(parents, r, k + 2) == Parent(parents, above);
  }

  function Advanced(parents: Parents, w: Row): Row
    requires w.ancestor in parents && parents[w.ancestor].Some?
  {
    Row(w.role, RoleName(w.role.organization, parents[w.ancestor].value), w.seen + [w.ancestor.name])
  }

  lemma NextRowsMeaning(parents: Parents, k: nat, working: set<Row>)
    requires RowsAt(parents, k, working)
    ensures RowsAt(parents, k + 1, NextRows(parents, working))
  {
    var next := NextRows(parents, working);
    forall x | IsRowAt(parents, x, k + 1) ensures x in next {
      var r := x.role;
      UpPrefix(parents, r, k + 2, k + 1);
      assert OnWalk(parents, r, k);
      OneStepUp(parents, r, k);
      var w := RowAt(parents, r, k);
      assert IsRowAt(parents, w, k) && x == Advanced(parents, w);
    }
    forall x | x in next ensures IsRowAt(parents, x, k + 1) {
      var w :| w in working && w.ancestor in parents && parents[w.ancestor].Some? && w.ancestor.name !in w.seen
               && x == Advanced(parents, w);
      assert IsRowAt(parents, w, k);
      OneStepUp(parents, w.role, k);
    }
  }

  // ---- Termination ----------------------------------------------------------------

  function UpSet(parents: Parents, role: RoleName, k: nat): set<RoleName> {
    if Up(parents, role, k).None? then {}
    else (if k == 0 then {} else UpSet(parents, role, k - 1)) + {Up(parents, role, k).value}
  }

  lemma {:induction false} InUpSet(parents: Parents, role: RoleName, k: nat, x: RoleName) returns (i: nat)
    requires x in UpSet(parents, role, k)
    ensures i <= k && Up(parents, role, i) == Some(x)
  {
    if Up(parents, role, k) == Some(x) { i := k; } else { i := InUpSet(parents, role, k - 1, x); }
  }

  lemma {:induction false} UpSetSize(parents: Parents, role: RoleName, k: nat)
    requires Up(parents, role, k).Some? && Fresh(parents, role, k)
    ensures |UpSet(parents, role, k)| == k + 1
  {
    if k > 0 {
      UpSetSize(parents, role, k - 1);
      var last := Up(parents, role, k).value;
      if last in UpSet(parents, role, k - 1) {
        var i := InUpSet(parents, role, k - 1, last);
        NameSeen(parents, role, k - 1, i);
        assert false;
      }
    }
  }

  /** Along a walk every role is new, so there are no more rounds than roles. */
  lemma WalkIsShort(parents: Parents, role: RoleName, k: nat)
    requires OnWalk(parents, role, k)
    ensures k < |parents|
  {
    UpPrefix(parents, role, k + 1, k);
    UpSetSize(parents, role, k);
    var s := UpSet(parents, role, k);
    forall x | x in s ensures x in parents {
      var i := InUpSet(parents, role, k, x);
      UpPrefix(parents, role, k + 1, i);
    }
    assert s <= parents.Keys;
    SubsetSize(s, parents.Keys);
  }

  // ---- Nothing is missed ----------------------------------------------------------

  lemma {:induction false} Shifted(parents: Parents, role: RoleName, i: nat, j: nat, d: nat)
    requires i < j && Up(parents, role, i) == Up(parents, role, j)
    ensures Up(parents, role, i + d) == Up(parents, role, j + d)
  {
    if d > 0 { Shifted(parents, role, i, j, d - 1); }
  }

  /** Every ancestor lies at the end of some walk: cut out the rounds of a cycle. */
  lemma {:induction false} WalkTo(parents: Parents, role: RoleName, above: RoleName, n: nat) returns (k: nat)
    requires n >= 1 && Up(parents, role, n) == Some(above)
    ensures OnWalk(parents, role, k) && Up(parents, role, k + 1) == Some(above)
    decreases n
  {
    if Fresh(parents, role, n - 1) {
      k := n - 1;
    } else {
      var i, j := Repeated(parents, role, n - 1);
      Shifted(parents, role, i, j, n - j);
      k := WalkTo(parents, role, above, i + (n - j));
    }
  }

  ghost predicate AllAncestors(parents: Parents, rows: set<Row>) {
    forall role, above ::
      (exists w :: w in rows && w.role == role && w.ancestor == above) <==> Ancestor(parents, role, above)
  }

  lemma {:induction false} EarlierOnWalk(parents: Parents, role: RoleName, k: nat, i: nat)
    requires i <= k && OnWalk(parents, role, k)
    ensures OnWalk(parents, role, i)
  {
    if i < k {
      UpPrefix(parents, role, k, k - 1);
      EarlierOnWalk(parents, role, k - 1, i);
    }
  }

  lemma NoRows(parents: Parents, role: RoleName, k: nat)
    requires RowsAt(parents, k, {}) && role in parents
    ensures !OnWalk(parents, role, k)
  {
    if OnWalk(parents, role, k) {
      var w := RowAt(parents, role, k);
      assert IsRowAt(parents, w, k);
    }
  }

  lemma WalkedIsAll(parents: Parents, rows: set<Row>, rounds: nat, role: RoleName, above: RoleName)
    requires Collected(parents, rounds, rows) && RowsAt(parents, rounds, {})
    ensures (exists w :: w in rows && w.role == role && w.ancestor == above) <==> Ancestor(parents, role, above)
  {
    if w :| w in rows && w.role == role && w.ancestor == above {
      var k: nat :| k < rounds && IsRowAt(parents, w, k);
      assert Up(parents, role, k + 1) == Some(above);
    }
    if Ancestor(parents, role, above) {
      var n: nat :| n >= 1 && Up(parents, role, n) == Some(above);
      var k := WalkTo(parents, role, above, n);
      UpPrefix(parents, role, k + 1, 0);
      assert Up(parents, role, 0) == Some(role);
      if k >= rounds {
        EarlierOnWalk(parents, role, k, rounds);
        NoRows(parents, role, rounds);
      }
      var w := RowAt(parents, role, k);
      assert IsRowAt(parents, w, k);
      assert w in rows && w.role == role && w.ancestor == above;
    }
  }

  lemma CollectMore(parents: Parents, rounds: nat, rows: set<Row>, working: set<Row>)
    requires Collected(parents, rounds, rows) && RowsAt(parents, rounds, working)
    ensures Collected(parents, rounds + 1, rows + working)
  {
    forall w ensures w in rows + working <==> exists k: nat :: k < rounds + 1 && IsRowAt(parents, w, k) {
      if w in rows {
        var k: nat :| k < rounds && IsRowAt(parents, w, k);
        assert k < rounds + 1;
      }
    }
  }

  lemma OneMoreRound(parents: Parents, round: nat, rows: set<Row>, working: set<Row>)
    requires RowsAt(parents, round, working) && Collected(parents, round, rows) && working != {}
    ensures round < |parents|
    ensures RowsAt(parents, round + 1, NextRows(parents, working))
    ensures Collected(parents, round + 1, rows + working)
  {
    var some :| some in working;
    assert IsRowAt(parents, some, round);
    WalkIsShort(parents, some.role, round);
    CollectMore(parents, round, rows, working);
    NextRowsMeaning(parents, round, working);
  }

  lemma NothingCollected(parents: Parents)
    ensures Collected(parents, 0, {})
  {
  }

  lemma WalkEnds(parents: Parents, round: nat, rows: set<Row>)
    requires Collected(parents, round, rows) && RowsAt(parents, round, {})
    ensures AllAncestors(parents, rows)
  {
    forall role, above
      ensures (exists w :: w in rows && w.role == role && w.ancestor == above) <==> Ancestor(parents, role, above)
    {
      WalkedIsAll(parents, rows, round, role, above);
    }
  }

  /** The recursive query: rounds over a working table, until one adds nothing. */
  method Walk(parents: Parents) returns (rows: set<Row>)
    ensures AllAncestors(parents, rows)
  {
    rows := {};
    var working := FirstRows(parents);
    ghost var round: nat := 0;
    FirstRowsMeaning(parents);
    NothingCollected(parents);
    while working != {}
      invariant RowsAt(parents, round, working) && Collected(parents, round, rows)
      invariant round <= |parents|
      decreases |parents| - round
    {
      OneMoreRound(parents, round, rows, working);
      rows := rows + working;
      working := NextRows(parents, working);
      round := round + 1;
    }
    WalkEnds(parents, round, rows);
  }

  // ---- The migration --------------------------------------------------------------

  class RoleTables {
    var parents: Parents
    var grants: set<Grant>

    constructor (parents: Parents, grants: set<Grant>)
      ensures this.parents == parents && this.grants == grants
    {
      this.parents, this.grants := parents, grants;
    }

    /** Afterwards no role has a parent, and every role's own rows, and so everything it
        inherits, are what it inherited before. */
    method Upgrade()
      modifies this
      ensures parents.Keys == old(parents).Keys && forall r | r in parents :: parents[r] == None
      ensures forall r, p :: Grant(r, p) in grants <==> Inherits(old(parents), old(grants), r, p)
      ensures forall r, p :: Inherits(parents, grants, r, p) <==> Inherits(old(parents), old(grants), r, p)
    {
      var walk := Walk(parents);
      grants := grants + set w, g | w in walk && g in grants && g.role == w.ancestor :: Grant(w.role, g.permission);
      forall r, p ensures Grant(r, p) in grants <==> Inherits(parents, old(grants), r, p) {
        Granted(parents, old(grants), walk, r, p);
      }
      parents := map r | r in parents :: None;
      forall r, p ensures Inherits(parents, grants, r, p) <==> Grant(r, p) in grants {
        FlatInherits(parents, grants, r, p);
      }
    }
  }

  lemma Granted(parents: Parents, grants: set<Grant>, walk: set<Row>, r: RoleName, p: string)
    requires AllAncestors(parents, walk)
    ensures (|| Grant(r, p) in grants
             || exists w, g :: w in walk && g in grants
                               && g.role == w.ancestor && Grant(r, p) == Grant(w.role, g.permission))
            <==> Inherits(parents, grants, r, p)
  {
    if above :| Ancestor(parents, r, above) && Grant(above, p) in grants {
      var w :| w in walk && w.role == r && w.ancestor == above;
      var g := Grant(above, p);
      assert g.role == w.ancestor;
    }
    if w, g :| w in walk && g in grants && g.role == w.ancestor && Grant(r, p) == Grant(w.role, g.permission) {
      assert Ancestor(parents, r, w.ancestor);
      assert Grant(w.ancestor, p) == g;
    }
  }

  /** Without parents a role has just its own rows. */
  lemma FlatInherits(parents: Parents, grants: set<Grant>, r: RoleName, p: string)
    requires forall x | x in parents :: parents[x] == None
    ensures Inherits(parents, grants, r, p) <==> Grant(r, p) in grants
  {
    if above :| Ancestor(parents, r, above) && Grant(above, p) in grants {
      var n: nat :| n >= 1 && Up(parents, r, n) == Some(above);
      UpPrefix(parents, r, n, n - 1);
      assert false;
    }
  }
}
