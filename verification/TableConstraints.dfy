/** What the tables of organizations and memberships always obey, and which single changes
    are let through: memberships stay with their organization, and the local checks of a
    change are together the constraints of the whole tables. */
module TableConstraints {
  import opened PersonalOrganizations
  import opened PersonalOwnership
  import opened Wrappers

  // ---- Memberships stay with their organization -----------------------------------

  lemma TenantStays(w: Work, key: int, newKey: int, m: Membership)
    requires key in w.tables.members && Changed(w, UpdateMember(key, newKey, m)).Some?
    ensures var v := Changed(w, UpdateMember(key, newKey, m)).value.tables;
            newKey in v.members && v.members[newKey].organization == w.tables.members[key].organization
  {
  }

  function Naming(t: Tables, id: string): set<int> {
    set k | k in t.members && t.members[k].organization == id
  }

  predicate Update(c: RowChange) {
    c.UpdateOrganization? || c.UpdateMember?
  }

  predicate OnlyUpdates(s: Statement) {
    s.Rows? ==> forall c | c in s.changes :: Update(c)
  }

  predicate NothingDeleted(w: Work) {
    w.deletedOrganizations == {} && w.deletedAccounts == {}
  }

  lemma ReplacedSize<T>(s: set<T>, x: T, y: T)
    requires x in s && (y == x || y !in s)
    ensures |s - {x} + {y}| == |s|
  {
    assert |s - {x}| == |s| - 1;
  }

  lemma ChangeKeepsSize(w: Work, c: RowChange, id: string)
    requires Update(c) && Changed(w, c).Some? && NothingDeleted(w)
    ensures NothingDeleted(Changed(w, c).value)
    ensures |Naming(Changed(w, c).value.tables, id)| == |Naming(w.tables, id)|
  {
    var t, v := w.tables, Changed(w, c).value.tables;
    if c.UpdateMember? && c.key in t.members {
      TenantStays(w, c.key, c.newKey, c.member);
      if t.members[c.key].organization == id {
        assert Naming(v, id) == Naming(t, id) - {c.key} + {c.newKey};
        ReplacedSize(Naming(t, id), c.key, c.newKey);
      } else {
        assert Naming(v, id) == Naming(t, id);
      }
    } else {
      assert Naming(v, id) == Naming(t, id);
    }
  }

  lemma {:induction false} ChangesKeepSize(w: Work, cs: seq<RowChange>, id: string)
    requires (forall c | c in cs :: Update(c)) && AllChanged(w, cs).Some? && NothingDeleted(w)
    ensures NothingDeleted(AllChanged(w, cs).value)
    ensures |Naming(AllChanged(w, cs).value.tables, id)| == |Naming(w.tables, id)|
    decreases |cs|
  {
    if cs != [] {
      assert cs[0] in cs;
      ChangeKeepsSize(w, cs[0], id);
      ChangesKeepSize(Changed(w, cs[0]).value, cs[1..], id);
    }
  }

  lemma StatementKeepsSize(w: Work, s: Statement, id: string)
    requires OnlyUpdates(s) && Executed(w, s).Some? && NothingDeleted(w)
    ensures NothingDeleted(Executed(w, s).value)
    ensures |Naming(Executed(w, s).value.tables, id)| == |Naming(w.tables, id)|
  {
    if s.Rows? {
      ChangesKeepSize(w, s.changes, id);
      var v := AllChanged(w, s.changes).value;
      assert Cascaded(v) == {};
      assert Naming(Settled(v).value.tables, id) == Naming(v.tables, id);
    }
  }

  lemma {:induction false} StatementsKeepSize(w: Work, ss: seq<Statement>, id: string)
    requires (forall s | s in ss :: OnlyUpdates(s)) && AllExecuted(w, ss).Some? && NothingDeleted(w)
    ensures |Naming(AllExecuted(w, ss).value.tables, id)| == |Naming(w.tables, id)|
    decreases |ss|
  {
    if ss != [] {
      assert ss[0] in ss;
      StatementKeepsSize(w, ss[0], id);
      StatementsKeepSize(Executed(w, ss[0]).value, ss[1..], id);
    }
  }

  /** A transaction that neither inserts nor deletes leaves every organization, personal or
      corporate, as many memberships as it had. */
  lemma UpdatesKeepSizes(t: Tables, ss: seq<Statement>, id: string)
    requires (forall s | s in ss :: OnlyUpdates(s)) && Committed(t, ss).Some?
    ensures |Naming(Committed(t, ss).value, id)| == |Naming(t, id)|
  {
    StatementsKeepSize(Begun(t), ss, id);
  }

  // ---- The constraints of the tables ----------------------------------------------

  /** One personal organization per owner. */
  ghost predicate OnePerOwner(t: Tables) {
    forall i, j | IsPersonal(t, i) && IsPersonal(t, j) && t.organizations[i].owner == t.organizations[j].owner :: i == j
  }

  /** Ids of 39 characters with their prefix, an owner exactly on personal organizations, one
      of these per account, roles of 1 to 64 characters, one membership per organization and
      account. */
  ghost predicate Legal(t: Tables) {
    && (forall id | id in t.organizations ::
          && |id| == 39 && id[..13] == "organization_"
          && (t.organizations[id].kind == Personal <==> t.organizations[id].owner != None))
    && OnePerOwner(t)
    && (forall k | k in t.members :: 1 <= |t.members[k].role| <= 64)
    && (forall j, k | j in t.members && k in t.members
                      && t.members[j].organization == t.members[k].organization
                      && t.members[j].account == t.members[k].account :: j == k)
  }

  /** The change as a plain update of the tables. */
  function Applied(t: Tables, c: RowChange): Tables {
    match c
    case InsertAccount(a) => t.(accounts := t.accounts + {a})
    case DeleteAccount(a) => t.(accounts := t.accounts - {a})
    case InsertOrganization(id, o) => t.(organizations := t.organizations[id := o])
    case UpdateOrganization(id, newId, o) => t.(organizations := (t.organizations - {id})[newId := o])
    case DeleteOrganization(id) => t.(organizations := t.organizations - {id})
    case InsertMember(key, m) => t.(members := t.members[key := m])
    case UpdateMember(key, newKey, m) => t.(members := (t.members - {key})[newKey := m])
    case DeleteMember(key) => t.(members := t.members - {key})
  }

  /** There is no row to change. */
  predicate Idle(t: Tables, c: RowChange) {
    match c
    case UpdateOrganization(id, _, _) => id !in t.organizations
    case DeleteOrganization(id) => id !in t.organizations
    case UpdateMember(key, _, _) => key !in t.members
    case DeleteMember(key) => key !in t.members
    case _ => false
  }

  /** The key of the new row is free. */
  predicate KeyFree(t: Tables, c: RowChange) {
    match c
    case InsertAccount(a) => a !in t.accounts
    case InsertOrganization(id, _) => id !in t.organizations
    case UpdateOrganization(id, newId, _) => newId == id || newId !in t.organizations
    case InsertMember(key, _) => key !in t.members
    case UpdateMember(key, newKey, _) => newKey == key || newKey !in t.members
    case _ => true
  }

  /** After the change the row is the only one of its personal organization, and the owner's. */
  ghost predicate AloneAndOwners(t: Tables, c: RowChange, key: int, m: Membership) {
    IsPersonal(t, m.organization) ==>
      && Some(m.account) == t.organizations[m.organization].owner && m.role == "owner" && m.state == Active
      && Naming(Applied(t, c), m.organization) == {key}
  }

  /** What the triggers forbid: another kind, another owner of a personal organization,
      another organization of a membership, and anything but the owner's single membership
      in a personal organization, which also keeps its key and is not deleted. */
  ghost predicate TriggersAllow(t: Tables, c: RowChange) {
    match c
    case UpdateOrganization(id, _, o) =>
      id in t.organizations ==>
        && o.kind == t.organizations[id].kind
        && (o.kind == Personal ==> o.owner == t.organizations[id].owner)
    case InsertMember(key, m) => AloneAndOwners(t, c, key, m)
    case UpdateMember(key, newKey, m) =>
      key in t.members ==>
        && m.organization == t.members[key].organization
        && AloneAndOwners(t, c, newKey, m)
        && (IsPersonal(t, m.organization) ==> newKey == key)
    case DeleteMember(key) => key in t.members ==> !IsPersonal(t, t.members[key].organization)
    case _ => true
  }

  lemma PrefixOfId(id: string)
    ensures OrganizationId(id) <==> |id| == 39 && id[..13] == "organization_"
  {
    assert |"organization_"| == 13;
  }

  lemma OwnersStayApart(t: Tables, base: Tables, id: string, o: Organization)
    requires OnePerOwner(base) && id !in base.organizations
    requires t == base.(organizations := base.organizations[id := o])
    ensures OnePerOwner(t) <==> OwnerFree(base, o, id)
  {
    if OnePerOwner(t) {
      forall x | x in base.organizations && x != id && base.organizations[x].kind.Personal? && o.kind.Personal?
        ensures base.organizations[x].owner != o.owner
      {
        assert IsPersonal(t, x) && IsPersonal(t, id);
      }
    }
    if OwnerFree(base, o, id) {
      forall i, j | IsPersonal(t, i) && IsPersonal(t, j) && t.organizations[i].owner == t.organizations[j].owner
        ensures i == j
      {
        if i != id && j != id { assert IsPersonal(base, i) && IsPersonal(base, j); }
      }
    }
  }

  lemma OrganizationLegal(t: Tables, base: Tables, id: string, o: Organization)
    requires Legal(base) && id !in base.organizations && t == base.(organizations := base.organizations[id := o])
    ensures Legal(t) <==> OrganizationId(id) && OwnerShape(o) && OwnerFree(base, o, id)
  {
    PrefixOfId(id);
    OwnersStayApart(t, base, id, o);
    assert id in t.organizations;
  }

  lemma FewerOrganizations(t: Tables, id: string)
    requires Legal(t)
    ensures Legal(t.(organizations := t.organizations - {id}))
  {
    var v := t.(organizations := t.organizations - {id});
    forall i, j | IsPersonal(v, i) && IsPersonal(v, j) && v.organizations[i].owner == v.organizations[j].owner
      ensures i == j
    {
      assert IsPersonal(t, i) && IsPersonal(t, j);
    }
  }

  lemma MemberLegal(t: Tables, base: Tables, key: int, m: Membership)
    requires Legal(base) && key !in base.members && t == base.(members := base.members[key := m])
    ensures Legal(t) <==> MemberShape(m) && AccountFree(base, m, None)
  {
    if Legal(t) {
      assert key in t.members;
      forall k | k in base.members
        ensures base.members[k].organization != m.organization || base.members[k].account != m.account
      {
        assert k in t.members && k != key;
      }
    }
  }

  lemma FewerMembers(t: Tables, key: int)
    requires Legal(t)
    ensures Legal(t.(members := t.members - {key}))
  {
  }

  lemma OrganizationExactly(w: Work, c: RowChange)
    requires Legal(w.tables) && (c.InsertOrganization? || c.UpdateOrganization? || c.DeleteOrganization?)
    requires !Idle(w.tables, c)
    ensures Changed(w, c).Some? <==>
            KeyFree(w.tables, c) && TriggersAllow(w.tables, c) && Legal(Applied(w.tables, c))
  {
    var t := w.tables;
    match c
    case InsertOrganization(id, o) =>
      if id !in t.organizations { OrganizationLegal(Applied(t, c), t, id, o); }
    case UpdateOrganization(id, newId, o) =>
      if newId == id || newId !in t.organizations {
        var base := t.(organizations := t.organizations - {id});
        FewerOrganizations(t, id);
        OrganizationLegal(Applied(t, c), base, newId, o);
        assert OwnerFree(base, o, newId) <==> OwnerFree(t, o, id);
      }
    case DeleteOrganization(id) => FewerOrganizations(t, id);
  }

  /** Seen from the tables afterwards, the trigger asks that the row be alone. */
  lemma AloneExactly(t: Tables, base: Tables, v: Tables, key: int, m: Membership)
    requires v == base.(members := base.members[key := m]) && key !in base.members
    ensures Naming(v, m.organization) == {key} <==> Naming(base, m.organization) == {}
  {
    assert key in Naming(v, m.organization);
    assert Naming(v, m.organization) - {key} == Naming(base, m.organization);
  }

  lemma InsertExactly(w: Work, key: int, m: Membership)
    requires Legal(w.tables) && key !in w.tables.members
    ensures var c := InsertMember(key, m);
            Changed(w, c).Some? <==> TriggersAllow(w.tables, c) && Legal(Applied(w.tables, c))
  {
    var t, c := w.tables, InsertMember(key, m);
    MemberLegal(Applied(t, c), t, key, m);
    AloneExactly(t, t, Applied(t, c), key, m);
    EmptyNaming(t, m.organization);
  }

  lemma EmptyNaming(t: Tables, id: string)
    ensures Naming(t, id) == {} <==> forall k | k in t.members :: t.members[k].organization != id
  {
    if Naming(t, id) == {} {
      forall k | k in t.members ensures t.members[k].organization != id {
        assert k !in Naming(t, id);
      }
    }
    if forall k | k in t.members :: t.members[k].organization != id {
      assert forall k :: k !in Naming(t, id);
    }
  }

  lemma WithoutRow(t: Tables, key: int, id: string)
    ensures var base := t.(members := t.members - {key});
            (forall k | k in base.members :: base.members[k].organization != id) <==>
            (forall k | k in t.members && k != key :: t.members[k].organization != id)
  {
    var base := t.(members := t.members - {key});
    if forall k | k in base.members :: base.members[k].organization != id {
      forall k | k in t.members && k != key ensures t.members[k].organization != id {
        assert k in base.members;
      }
    }
  }

  lemma AccountWithoutRow(t: Tables, key: int, m: Membership)
    ensures AccountFree(t.(members := t.members - {key}), m, None) <==> AccountFree(t, m, Some(key))
  {
    var base := t.(members := t.members - {key});
    if AccountFree(base, m, None) {
      forall k | k in t.members && Some(k) != Some(key)
        ensures t.members[k].organization != m.organization || t.members[k].account != m.account
      {
        assert k in base.members;
      }
    }
  }

  lemma UpdateExactly(w: Work, key: int, newKey: int, m: Membership)
    requires Legal(w.tables) && key in w.tables.members && (newKey == key || newKey !in w.tables.members)
    ensures var c := UpdateMember(key, newKey, m);
            Changed(w, c).Some? <==> TriggersAllow(w.tables, c) && Legal(Applied(w.tables, c))
  {
    var t, c := w.tables, UpdateMember(key, newKey, m);
    var base := t.(members := t.members - {key});
    FewerMembers(t, key);
    MemberLegal(Applied(t, c), base, newKey, m);
    AccountWithoutRow(t, key, m);
    AloneExactly(t, base, Applied(t, c), newKey, m);
    EmptyNaming(base, m.organization);
    WithoutRow(t, key, m.organization);
    if newKey != key && m.organization == t.members[key].organization && IsPersonal(t, m.organization) {
      assert !MembershipAllowed(t, newKey, m);
    }
  }

  lemma MemberExactly(w: Work, c: RowChange)
    requires Legal(w.tables) && (c.InsertMember? || c.UpdateMember? || c.DeleteMember?)
    requires !Idle(w.tables, c)
    ensures Changed(w, c).Some? <==>
            KeyFree(w.tables, c) && TriggersAllow(w.tables, c) && Legal(Applied(w.tables, c))
  {
    match c
    case InsertMember(key, m) => if key !in w.tables.members { InsertExactly(w, key, m); }
    case UpdateMember(key, newKey, m) =>
      if newKey == key || newKey !in w.tables.members { UpdateExactly(w, key, newKey, m); }
    case DeleteMember(key) => FewerMembers(w.tables, key);
  }

  /** On legal tables a change is let through exactly when its row is absent, or its key is
      free, the triggers allow it and the tables it leaves are legal again; and it leaves
      just these. */
  lemma ChangedExactly(w: Work, c: RowChange)
    requires Legal(w.tables)
    ensures Changed(w, c).Some? <==>
            || Idle(w.tables, c)
            || (KeyFree(w.tables, c) && TriggersAllow(w.tables, c) && Legal(Applied(w.tables, c)))
    ensures Changed(w, c).Some? ==>
              Changed(w, c).value.tables == if Idle(w.tables, c) then w.tables else Applied(w.tables, c)
  {
    if !Idle(w.tables, c) {
      match c
      case InsertAccount(_) =>
      case DeleteAccount(_) =>
      case InsertOrganization(_, _) => OrganizationExactly(w, c);
      case UpdateOrganization(_, _, _) => OrganizationExactly(w, c);
      case DeleteOrganization(_) => OrganizationExactly(w, c);
      case InsertMember(_, _) => MemberExactly(w, c);
      case UpdateMember(_, _, _) => MemberExactly(w, c);
      case DeleteMember(_) => MemberExactly(w, c);
    }
  }

  // ---- Every commit leaves legal tables -------------------------------------------

  lemma {:induction false} ChangesStayLegal(w: Work, cs: seq<RowChange>)
    requires Legal(w.tables) && AllChanged(w, cs).Some?
    ensures Legal(AllChanged(w, cs).value.tables)
    decreases |cs|
  {
    if cs != [] {
      ChangedExactly(w, cs[0]);
      ChangesStayLegal(Changed(w, cs[0]).value, cs[1..]);
    }
  }

  lemma {:induction false} StatementsStayLegal(w: Work, ss: seq<Statement>)
    requires Legal(w.tables) && AllExecuted(w, ss).Some?
    ensures Legal(AllExecuted(w, ss).value.tables)
    decreases |ss|
  {
    if ss != [] {
      if ss[0].Rows? { ChangesStayLegal(w, ss[0].changes); }
      StatementsStayLegal(Executed(w, ss[0]).value, ss[1..]);
    }
  }

  /** Every membership has its organization and its account, and every owner exists. */
  ghost predicate References(t: Tables) {
    && (forall k | k in t.members ::
          t.members[k].organization in t.organizations && t.members[k].account in t.accounts)
    && (forall id, a | id in t.organizations && t.organizations[id].owner == Some(a) :: a in t.accounts)
  }

  lemma ReferencesExactly(t: Tables)
    ensures References(t) <==> ReferencesHold(t)
  {
    if References(t) {
      forall id | id in t.organizations && t.organizations[id].owner.Some?
        ensures t.organizations[id].owner.value in t.accounts
      {
        assert t.organizations[id].owner == Some(t.organizations[id].owner.value);
      }
    }
  }

  /** Every commit leaves all constraints and references intact. */
  lemma CommitsStayLegal(t: Tables, ss: seq<Statement>)
    requires Legal(t) && References(t) && Committed(t, ss).Some?
    ensures Legal(Committed(t, ss).value) && References(Committed(t, ss).value)
  {
    ReferencesExactly(t);
    StatementsStayLegal(Begun(t), ss);
    ReferencesStay(Begun(t), ss);
    ReferencesExactly(Committed(t, ss).value);
  }

  // ---- Founding -------------------------------------------------------------------

  function Founding(id: string, owner: string, key: int): seq<Statement> {
    [ Rows([InsertOrganization(id, Organization(Personal, Some(owner)))]),
      Rows([InsertMember(key, Membership(id, owner, "owner", Active))]) ]
  }

  function Founded(t: Tables, id: string, owner: string, key: int): Tables {
    t.(organizations := t.organizations[id := Organization(Personal, Some(owner))],
       members := t.members[key := Membership(id, owner, "owner", Active)])
  }

  lemma NoOwnerRows(t: Tables, id: string, o: Organization)
    requires forall k | k in t.members :: t.members[k].organization != id
    ensures OwnerRows(t, id, o) == {}
  {
    forall k ensures k !in OwnerRows(t, id, o) {
      if k in t.members { assert !OwnersRow(t.members[k], id, o); }
    }
  }

  lemma OnlyOwnerRow(t: Tables, id: string, owner: string, key: int)
    requires ReferencesHold(t) && id !in t.organizations && key !in t.members
    ensures |OwnerRows(Founded(t, id, owner, key), id, Organization(Personal, Some(owner)))| == 1
  {
    var o := Organization(Personal, Some(owner));
    var v := Founded(t, id, owner, key);
    assert forall k | k in t.members :: t.members[k].organization != id;
    NoOwnerRows(t, id, o);
    assert forall k :: k in OwnerRows(v, id, o) <==> k in OwnerRows(t, id, o) || k == key;
    assert OwnerRows(v, id, o) == OwnerRows(t, id, o) + {key};
  }

  lemma FoundsOrganization(t: Tables, id: string, owner: string)
    requires forall x | IsPersonal(t, x) :: t.organizations[x].owner != Some(owner)
    requires OrganizationId(id) && id !in t.organizations
    ensures var o := Organization(Personal, Some(owner));
            Changed(Begun(t), InsertOrganization(id, o))
            == Some(Work(t.(organizations := t.organizations[id := o]), [Inserted(id, o)], false, {}, {}))
  {
    var o := Organization(Personal, Some(owner));
    assert [] + [Inserted(id, o)] == [Inserted(id, o)];
    assert forall x | x in t.organizations && t.organizations[x].kind.Personal? :: IsPersonal(t, x);
  }

  lemma FoundsMember(t: Tables, id: string, owner: string, key: int, w: Work)
    requires ReferencesHold(t) && id !in t.organizations && key !in t.members
    requires w.tables == t.(organizations := t.organizations[id := Organization(Personal, Some(owner))])
    ensures Changed(w, InsertMember(key, Membership(id, owner, "owner", Active)))
         == Some(w.(tables := Founded(t, id, owner, key)))
  {
    assert forall k | k in t.members :: t.members[k].organization != id;
  }

  lemma FoundedReferences(t: Tables, id: string, owner: string, key: int)
    requires ReferencesHold(t) && owner in t.accounts && id !in t.organizations && key !in t.members
    ensures ReferencesHold(t.(organizations := t.organizations[id := Organization(Personal, Some(owner))]))
    ensures ReferencesHold(Founded(t, id, owner, key))
  {
  }

  /** An account without a personal organization can always found one: the organization and
      then its owner's membership. */
  lemma FoundingCommits(t: Tables, id: string, owner: string, key: int)
    requires ReferencesHold(t) && owner in t.accounts
    requires forall x | IsPersonal(t, x) :: t.organizations[x].owner != Some(owner)
    requires |id| == 39 && id[..13] == "organization_" && id !in t.organizations && key !in t.members
    ensures Committed(t, Founding(id, owner, key)) == Some(Founded(t, id, owner, key))
  {
    var o, m := Organization(Personal, Some(owner)), Membership(id, owner, "owner", Active);
    var w1 := Work(t.(organizations := t.organizations[id := o]), [Inserted(id, o)], false, {}, {});
    var w2 := w1.(tables := Founded(t, id, owner, key));
    PrefixOfId(id);
    FoundsOrganization(t, id, owner);
    FoundsMember(t, id, owner, key, w1);
    FoundedReferences(t, id, owner, key);
    var first, second := Rows([InsertOrganization(id, o)]), Rows([InsertMember(key, m)]);
    Step(Begun(t), InsertOrganization(id, o), w1, [second] + []);
    Step(w1, InsertMember(key, m), w2, []);
    assert Founding(id, owner, key) == [first] + ([second] + []);
    OnlyOwnerRow(t, id, owner, key);
  }

  lemma InsertRefusedAtOnce(w: Work, id: string, owner: string)
    requires w.immediate && w.deletedOrganizations == {} && w.deletedAccounts == {}
    requires forall k | k in w.tables.members :: w.tables.members[k].organization != id
    ensures Executed(w, Rows([InsertOrganization(id, Organization(Personal, Some(owner)))])) == None
  {
    var o := Organization(Personal, Some(owner));
    var c := InsertOrganization(id, o);
    OneChange(w, c);
    if Changed(w, c).Some? {
      var v := Changed(w, c).value;
      assert Cascaded(v) == {};
      var u := v.tables.(members := v.tables.members - Cascaded(v));
      NoOwnerRows(u, id, o);
      assert v.queue[|v.queue| - 1] == Inserted(id, o);
    }
  }

  /** But not while the check is immediate: the first of the two statements is refused. */
  lemma ImmediateFoundingFails(t: Tables, id: string, owner: string, key: int)
    requires forall k | k in t.members :: t.members[k].organization != id
    ensures Committed(t, [SetImmediate] + Founding(id, owner, key)) == None
  {
    var w, founding := Begun(t).(immediate := true), Founding(id, owner, key);
    RunOne(Begun(t), SetImmediate, founding, w);
    InsertRefusedAtOnce(w, id, owner);
    assert AllExecuted(w, founding) == None;
  }

  /** Making the check immediate and deferring it again leaves a transaction as it was. */
  lemma DeferredAgain(t: Tables, ss: seq<Statement>)
    ensures Committed(t, [SetImmediate] + ([SetDeferred] + ss)) == Committed(t, ss)
  {
    var w := Begun(t).(immediate := true);
    RunOne(Begun(t), SetImmediate, [SetDeferred] + ss, w);
    RunOne(w, SetDeferred, ss, Begun(t));
  }

  // ---- Deleting -------------------------------------------------------------------

  lemma SingleStatement(t: Tables, c: RowChange, v: Work)
    requires Changed(Begun(t), c) == Some(v) && v.queue == [] && !v.immediate
    ensures Committed(t, [Rows([c])]) == if Settled(v).None? then None else Some(Settled(v).value.tables)
  {
    OneChange(Begun(t), c);
    assert [Rows([c])] == [Rows([c])] + [];
    if Settled(v).Some? { RunOne(Begun(t), Rows([c]), [], Settled(v).value); }
  }

  /** Deleting an organization, of either kind, takes its memberships along and nothing else. */
  lemma OrganizationDeletes(t: Tables, id: string)
    requires ReferencesHold(t) && id in t.organizations
    ensures Committed(t, [Rows([DeleteOrganization(id)])])
         == Some(t.(organizations := t.organizations - {id}, members := t.members - Naming(t, id)))
  {
    var v := Work(t.(organizations := t.organizations - {id}), [], false, {id}, {});
    assert {} + {id} == {id};
    SingleStatement(t, DeleteOrganization(id), v);
    assert Cascaded(v) == Naming(t, id);
    var u := v.tables.(members := t.members - Naming(t, id));
    assert forall k | k in u.members :: k in t.members && t.members[k].organization != id;
    assert ReferencesHold(u);
  }

  function FoundAtOnce(id: string, owner: string, key: int): Statement {
    Rows([InsertOrganization(id, Organization(Personal, Some(owner))),
          InsertMember(key, Membership(id, owner, "owner", Active))])
  }

  function Starting(t: Tables, immediate: bool): Work {
    Work(t, [], immediate, {}, {})
  }

  /** The organization is there, and its check is done or waits. */
  function AfterFounding(t: Tables, id: string, owner: string, key: int, immediate: bool): Work {
    Work(Founded(t, id, owner, key),
         if immediate then [] else [Inserted(id, Organization(Personal, Some(owner)))], immediate, {}, {})
  }

  ghost predicate CanFound(t: Tables, id: string, owner: string, key: int) {
    && ReferencesHold(t) && owner in t.accounts && OrganizationId(id) && id !in t.organizations && key !in t.members
    && forall x | IsPersonal(t, x) :: t.organizations[x].owner != Some(owner)
  }

  lemma BothInserted(t: Tables, id: string, owner: string, key: int, immediate: bool)
    requires CanFound(t, id, owner, key)
    ensures AllChanged(Starting(t, immediate), FoundAtOnce(id, owner, key).changes)
         == Some(Starting(Founded(t, id, owner, key), immediate).(
                   queue := [Inserted(id, Organization(Personal, Some(owner)))]))
  {
    var o, m := Organization(Personal, Some(owner)), Membership(id, owner, "owner", Active);
    var w := Starting(t, immediate);
    var w1 := w.(tables := t.(organizations := t.organizations[id := o]), queue := [Inserted(id, o)]);
    assert forall x | x in t.organizations && t.organizations[x].kind.Personal? :: IsPersonal(t, x);
    assert [] + [Inserted(id, o)] == [Inserted(id, o)];
    assert Changed(w, InsertOrganization(id, o)) == Some(w1);
    FoundsMember(t, id, owner, key, w1);
    var c, d := InsertOrganization(id, o), InsertMember(key, m);
    assert [c, d][1..] == [d] && [d][1..] == [];
    var w2 := w1.(tables := Founded(t, id, owner, key));
    assert AllChanged(w2, []) == Some(w2);
    assert AllChanged(w1, [d]) == Some(w2);
  }

  lemma FoundsAtOnce(t: Tables, id: string, owner: string, key: int, immediate: bool)
    requires CanFound(t, id, owner, key)
    ensures Executed(Starting(t, immediate), FoundAtOnce(id, owner, key))
         == Some(AfterFounding(t, id, owner, key, immediate))
  {
    BothInserted(t, id, owner, key, immediate);
    FoundedReferences(t, id, owner, key);
    OnlyOwnerRow(t, id, owner, key);
    var v := AllChanged(Starting(t, immediate), FoundAtOnce(id, owner, key).changes).value;
    assert Cascaded(v) == {};
    assert v.tables.(members := v.tables.members - {}) == v.tables;
  }

  lemma DeletesFounded(t: Tables, id: string, owner: string, key: int, immediate: bool)
    requires CanFound(t, id, owner, key)
    ensures var w := AfterFounding(t, id, owner, key, immediate);
            Executed(w, Rows([DeleteOrganization(id)])) == Some(w.(tables := t))
  {
    var w := AfterFounding(t, id, owner, key, immediate);
    OneChange(w, DeleteOrganization(id));
    var v := Changed(w, DeleteOrganization(id)).value;
    assert {} + {id} == {id};
    assert v.tables.organizations == t.organizations;
    assert forall k | k in t.members :: t.members[k].organization != id && t.members[k].account in t.accounts;
    assert Cascaded(v) == {key};
    assert v.tables.members - {key} == t.members;
  }

  /** Founding an organization and deleting it again in one transaction leaves no trace if
      the owner check is immediate, and is refused if it is deferred. */
  lemma FoundedAndDeleted(t: Tables, id: string, owner: string, key: int)
    requires CanFound(t, id, owner, key)
    ensures var ss := [FoundAtOnce(id, owner, key)] + ([Rows([DeleteOrganization(id)])] + []);
            Committed(t, ss) == None && Committed(t, [SetImmediate] + ss) == Some(t)
  {
    var found, delete := FoundAtOnce(id, owner, key), Rows([DeleteOrganization(id)]);
    var ss := [found] + ([delete] + []);
    var o := Organization(Personal, Some(owner));
    var late, early := AfterFounding(t, id, owner, key, false), AfterFounding(t, id, owner, key, true);
    FoundsAtOnce(t, id, owner, key, false);
    FoundsAtOnce(t, id, owner, key, true);
    DeletesFounded(t, id, owner, key, false);
    DeletesFounded(t, id, owner, key, true);
    RunOne(Begun(t), found, [delete] + [], late);
    RunOne(late, delete, [], late.(tables := t));
    RunOne(Begun(t), SetImmediate, ss, Starting(t, true));
    RunOne(Starting(t, true), found, [delete] + [], early);
    RunOne(early, delete, [], early.(tables := t));
    assert forall k | k in t.members :: t.members[k].organization != id;
    NoOwnerRows(t, id, o);
    assert Inserted(id, o) in late.queue;
  }

  function MembershipsOf(t: Tables, account: string): set<int> {
    set k | k in t.members && t.members[k].account == account
  }

  /** An account is deleted exactly when no personal organization has it as its owner or as
      a member; its memberships go along. */
  lemma AccountDeletes(t: Tables, account: string)
    requires ReferencesHold(t)
    ensures Committed(t, [Rows([DeleteAccount(account)])])
         == if || (exists id | id in t.organizations :: t.organizations[id].owner == Some(account))
               || (exists k | k in t.members ::
                     t.members[k].account == account && IsPersonal(t, t.members[k].organization))
            then None
            else Some(t.(accounts := t.accounts - {account}, members := t.members - MembershipsOf(t, account)))
  {
    var v := Work(t.(accounts := t.accounts - {account}), [], false, {}, {account});
    assert {} + {account} == {account};
    SingleStatement(t, DeleteAccount(account), v);
    assert Cascaded(v) == MembershipsOf(t, account);
    var u := v.tables.(members := t.members - MembershipsOf(t, account));
    assert forall k | k in u.members :: k in t.members && t.members[k].account != account;
    if id :| id in t.organizations && t.organizations[id].owner == Some(account) {
      assert !ReferencesHold(u);
    } else {
      assert ReferencesHold(u);
    }
    assert (exists k | k in Cascaded(v) :: IsPersonal(v.tables, v.tables.members[k].organization)) <==>
           (exists k | k in t.members :: t.members[k].account == account && IsPersonal(t, t.members[k].organization));
  }
}
