/** Organizations and their memberships under the triggers and constraints that keep a
    personal organization with exactly one membership, its owner's. Triggers fire row by
    row, foreign keys are checked and cascades run at the end of a statement, and the check
    of a new organization waits for the end of its transaction. */
module PersonalOrganizations {
  import opened Wrappers

  datatype Kind = Personal | Corporate

  datatype Organization = Organization(kind: Kind, owner: Option<string>)

  datatype MemberState = Active | Suspended

  datatype Membership = Membership(organization: string, account: string, role: string, state: MemberState)

  datatype Tables = Tables(
    accounts: set<string>, organizations: map<string, Organization>, members: map<int, Membership>)

  /** The row an insert leaves for the deferred trigger. */
  datatype Inserted = Inserted(id: string, organization: Organization)

  /** A transaction under way: what waits for its end, and what the current statement has
      deleted. */
  datatype Work = Work(
    tables: Tables, queue: seq<Inserted>, immediate: bool,
    deletedOrganizations: set<string>, deletedAccounts: set<string>)

  datatype RowChange =
    | InsertAccount(account: string)
    | DeleteAccount(account: string)
    | InsertOrganization(id: string, organization: Organization)
    | UpdateOrganization(id: string, newId: string, organization: Organization)
    | DeleteOrganization(id: string)
    | InsertMember(key: int, member: Membership)
    | UpdateMember(key: int, newKey: int, member: Membership)
    | DeleteMember(key: int)

  datatype Statement = Rows(changes: seq<RowChange>) | SetImmediate | SetDeferred

  // ---- Constraints of single rows -------------------------------------------------

  predicate OrganizationId(id: string) {
    "organization_" <= id && |id| == 39
  }

  predicate OwnerShape(o: Organization) {
    o.kind.Personal? <==> o.owner.Some?
  }

  predicate MemberShape(m: Membership) {
    1 <= |m.role| <= 64
  }

  /** One personal organization per owner. */
  predicate OwnerFree(t: Tables, o: Organization, except: string) {
    o.kind.Personal? ==>
      forall id | id in t.organizations && id != except && t.organizations[id].kind.Personal? ::
        t.organizations[id].owner != o.owner
  }

  predicate AccountFree(t: Tables, m: Membership, except: Option<int>) {
    forall k | k in t.members && Some(k) != except ::
      t.members[k].organization != m.organization || t.members[k].account != m.account
  }

  predicate IsPersonal(t: Tables, id: string) {
    id in t.organizations && t.organizations[id].kind.Personal?
  }

  predicate OwnersRow(m: Membership, id: string, o: Organization) {
    m.organization == id && Some(m.account) == o.owner && m.role == "owner" && m.state.Active?
  }

  // ---- Row triggers ---------------------------------------------------------------

  /** The trigger on inserted and updated memberships. */
  predicate MembershipAllowed(t: Tables, key: int, m: Membership) {
    IsPersonal(t, m.organization) ==>
      && OwnersRow(m, m.organization, t.organizations[m.organization])
      && forall k | k in t.members && k != key :: t.members[k].organization != m.organization
  }

  /** One row changed; a change of an absent row changes nothing. */
  function Changed(w: Work, c: RowChange): Option<Work> {
    var t := w.tables;
    match c
    case InsertAccount(a) =>
      if a in t.accounts then None else Some(w.(tables := t.(accounts := t.accounts + {a})))
    case DeleteAccount(a) =>
      Some(w.(tables := t.(accounts := t.accounts - {a}), deletedAccounts := w.deletedAccounts + {a}))
    case InsertOrganization(id, o) =>
      if id in t.organizations || !OrganizationId(id) || !OwnerShape(o) || !OwnerFree(t, o, id) then None
      else Some(w.(tables := t.(organizations := t.organizations[id := o]), queue := w.queue + [Inserted(id, o)]))
    case UpdateOrganization(id, newId, o) =>
      if id !in t.organizations then Some(w)
      else
        var before := t.organizations[id];
        if || o.kind != before.kind || (before.kind.Personal? && o.owner != before.owner)
           || !OrganizationId(newId) || !OwnerShape(o) || !OwnerFree(t, o, id)
           || (newId != id && newId in t.organizations)
        then None
        else Some(w.(tables := t.(organizations := (t.organizations - {id})[newId := o])))
    case DeleteOrganization(id) =>
      if id !in t.organizations then Some(w)
      else Some(w.(tables := t.(organizations := t.organizations - {id}),
                   deletedOrganizations := w.deletedOrganizations + {id}))
    case InsertMember(key, m) =>
      if !MembershipAllowed(t, key, m) || key in t.members || !MemberShape(m) || !AccountFree(t, m, None) then None
      else Some(w.(tables := t.(members := t.members[key := m])))
    case UpdateMember(key, newKey, m) =>
      if key !in t.members then Some(w)
      else if || m.organization != t.members[key].organization || !MembershipAllowed(t, newKey, m)
              || (newKey != key && newKey in t.members) || !MemberShape(m) || !AccountFree(t, m, Some(key))
      then None
      else Some(w.(tables := t.(members := (t.members - {key})[newKey := m])))
    case DeleteMember(key) =>
      if key !in t.members then Some(w)
      else if IsPersonal(t, t.members[key].organization) then None
      else Some(w.(tables := t.(members := t.members - {key})))
  }

  // ---- Statements and transactions ------------------------------------------------

  function AllChanged(w: Work, cs: seq<RowChange>): Option<Work>
    decreases |cs|
  {
    if cs == [] then Some(w)
    else
      var next :- Changed(w, cs[0]);
      AllChanged(next, cs[1..])
  }

  /** The memberships that the statement's deletions take along. */
  function Cascaded(w: Work): set<int> {
    set k | k in w.tables.members &&
            (w.tables.members[k].organization in w.deletedOrganizations
             || w.tables.members[k].account in w.deletedAccounts)
  }

  predicate ReferencesHold(t: Tables) {
    && (forall k | k in t.members :: t.members[k].organization in t.organizations && t.members[k].account in t.accounts)
    && (forall id | id in t.organizations && t.organizations[id].owner.Some? ::
          t.organizations[id].owner.value in t.accounts)
  }

  function OwnerRows(t: Tables, id: string, o: Organization): set<int> {
    set k | k in t.members && OwnersRow(t.members[k], id, o)
  }

  /** The deferred trigger, for every organization inserted. */
  predicate QueuePasses(t: Tables, queue: seq<Inserted>) {
    forall q | q in queue && q.organization.kind.Personal? :: |OwnerRows(t, q.id, q.organization)| == 1
  }

  function Settled(w: Work): Option<Work> {
    if exists k | k in Cascaded(w) :: IsPersonal(w.tables, w.tables.members[k].organization) then None
    else
      var t := w.tables.(members := w.tables.members - Cascaded(w));
      if !ReferencesHold(t) || (w.immediate && !QueuePasses(t, w.queue)) then None
      else Some(Work(t, if w.immediate then [] else w.queue, w.immediate, {}, {}))
  }

  function Executed(w: Work, s: Statement): Option<Work> {
    match s
    case Rows(cs) => var changed :- AllChanged(w, cs); Settled(changed)
    case SetImmediate => if QueuePasses(w.tables, w.queue) then Some(w.(queue := [], immediate := true)) else None
    case SetDeferred => Some(w.(immediate := false))
  }

  function AllExecuted(w: Work, ss: seq<Statement>): Option<Work>
    decreases |ss|
  {
    if ss == [] then Some(w)
    else
      var next :- Executed(w, ss[0]);
      AllExecuted(next, ss[1..])
  }

  /** The tables a committed transaction leaves. */
  function Committed(t: Tables, ss: seq<Statement>): Option<Tables> {
    var w :- AllExecuted(Work(t, [], false, {}, {}), ss);
    if QueuePasses(w.tables, w.queue) then Some(w.tables) else None
  }

  // ---- The database ---------------------------------------------------------------

  class Database {
    var accounts: set<string>
    var organizations: map<string, Organization>
    var members: map<int, Membership>
    var queue: seq<Inserted>
    var immediate: bool
    var deletedOrganizations: set<string>
    var deletedAccounts: set<string>

    function Contents(): Tables
      reads this
    {
      Tables(accounts, organizations, members)
    }

    function Now(): Work
      reads this
    {
      Work(Contents(), queue, immediate, deletedOrganizations, deletedAccounts)
    }

    constructor ()
      ensures Now() == Work(Tables({}, map[], map[]), [], false, {}, {})
    {
      accounts, organizations, members := {}, map[], map[];
      queue, immediate, deletedOrganizations, deletedAccounts := [], false, {}, {};
    }

    method ValidatePersonalMembership(key: int, m: Membership) returns (ok: bool)
      ensures ok == MembershipAllowed(Contents(), key, m)
    {
      if m.organization in organizations && organizations[m.organization].kind.Personal? {
        var owner := organizations[m.organization].owner;
        if Some(m.account) != owner || m.role != "owner" || !m.state.Active? {
          return false;
        }
        if exists k | k in members :: k != key && members[k].organization == m.organization {
          return false;
        }
      }
      return true;
    }

    method ChangeOrganization(c: RowChange) returns (ok: bool)
      requires c.InsertOrganization? || c.UpdateOrganization? || c.DeleteOrganization?
      modifies this
      ensures ok == Changed(old(Now()), c).Some?
      ensures Now() == if ok then Changed(old(Now()), c).value else old(Now())
    {
      match c {
        case InsertOrganization(id, o) =>
          if id in organizations || !OrganizationId(id) || !OwnerShape(o) || !OwnerFree(Contents(), o, id) {
            return false;
          }
          organizations := organizations[id := o];
          queue := queue + [Inserted(id, o)];
        case UpdateOrganization(id, newId, o) =>
          if id in organizations {
            if o.kind != organizations[id].kind {
              return false;
            }
            if organizations[id].kind.Personal? && o.owner != organizations[id].owner {
              return false;
            }
            if || !OrganizationId(newId) || !OwnerShape(o) || !OwnerFree(Contents(), o, id)
               || (newId != id && newId in organizations)
            {
              return false;
            }
            organizations := (organizations - {id})[newId := o];
          }
        case DeleteOrganization(id) =>
          if id in organizations {
            organizations := organizations - {id};
            deletedOrganizations := deletedOrganizations + {id};
          }
      }
      return true;
    }

    method ChangeMember(c: RowChange) returns (ok: bool)
      requires c.InsertMember? || c.UpdateMember? || c.DeleteMember?
      modifies this
      ensures ok == Changed(old(Now()), c).Some?
      ensures Now() == if ok then Changed(old(Now()), c).value else old(Now())
    {
      match c {
        case InsertMember(key, m) =>
          var allowed := ValidatePersonalMembership(key, m);
          if !allowed || key in members || !MemberShape(m) || !AccountFree(Contents(), m, None) {
            return false;
          }
          members := members[key := m];
        case UpdateMember(key, newKey, m) =>
          if key in members {
            if m.organization != members[key].organization {
              return false;
            }
            var allowed := ValidatePersonalMembership(newKey, m);
            if || !allowed || (newKey != key && newKey in members) || !MemberShape(m)
               || !AccountFree(Contents(), m, Some(key))
            {
              return false;
            }
            members := (members - {key})[newKey := m];
          }
        case DeleteMember(key) =>
          if key in members {
            if IsPersonal(Contents(), members[key].organization) {
              return false;
            }
            members := members - {key};
          }
      }
      return true;
    }

    method Change(c: RowChange) returns (ok: bool)
      modifies this
      ensures ok == Changed(old(Now()), c).Some?
      ensures Now() == if ok then Changed(old(Now()), c).value else old(Now())
    {
      if c.InsertAccount? {
        if c.account in accounts {
          return false;
        }
        accounts := accounts + {c.account};
        return true;
      }
      if c.DeleteAccount? {
        accounts := accounts - {c.account};
        deletedAccounts := deletedAccounts + {c.account};
        return true;
      }
      if c.InsertOrganization? || c.UpdateOrganization? || c.DeleteOrganization? {
        ok := ChangeOrganization(c);
      } else {
        ok := ChangeMember(c);
      }
    }

    /** The end of a statement. */
    method Settle() returns (ok: bool)
      modifies this
      ensures ok == Settled(old(Now())).Some?
      ensures ok ==> Now() == Settled(old(Now())).value
    {
      var cascaded := Cascaded(Now());
      if exists k | k in cascaded :: IsPersonal(Contents(), members[k].organization) {
        return false;
      }
      members := members - cascaded;
      if !ReferencesHold(Contents()) {
        return false;
      }
      if immediate {
        if !QueuePasses(Contents(), queue) {
          return false;
        }
        queue := [];
      }
      deletedOrganizations, deletedAccounts := {}, {};
      return true;
    }

    method Execute(s: Statement) returns (ok: bool)
      modifies this
      ensures ok == Executed(old(Now()), s).Some?
      ensures ok ==> Now() == Executed(old(Now()), s).value
    {
      match s {
        case Rows(cs) =>
          for i := 0 to |cs|
            invariant AllChanged(old(Now()), cs) == AllChanged(Now(), cs[i..])
          {
            assert cs[i..][0] == cs[i] && cs[i..][1..] == cs[i + 1..];
            ok := Change(cs[i]);
            if !ok {
              return false;
            }
          }
          ok := Settle();
          return;
        case SetImmediate =>
          if !QueuePasses(Contents(), queue) {
            return false;
          }
          queue, immediate := [], true;
        case SetDeferred =>
          immediate := false;
      }
      return true;
    }

    /** A whole transaction: committed, or rolled back as a whole. */
    method Transaction(ss: seq<Statement>) returns (committed: bool)
      requires queue == [] && !immediate && deletedOrganizations == {} && deletedAccounts == {}
      modifies this
      ensures committed == Committed(old(Contents()), ss).Some?
      ensures Contents() == if committed then Committed(old(Contents()), ss).value else old(Contents())
      ensures queue == [] && !immediate && deletedOrganizations == {} && deletedAccounts == {}
    {
      var before := Contents();
      committed := true;
      for i := 0 to |ss|
        invariant committed
        invariant AllExecuted(old(Now()), ss) == AllExecuted(Now(), ss[i..])
      {
        assert ss[i..][0] == ss[i] && ss[i..][1..] == ss[i + 1..];
        committed := Execute(ss[i]);
        if !committed {
          break;
        }
      }
      if committed && !QueuePasses(Contents(), queue) {
        committed := false;
      }
      if !committed {
        accounts, organizations, members := before.accounts, before.organizations, before.members;
      }
      queue, immediate, deletedOrganizations, deletedAccounts := [], false, {}, {};
    }
  }
}
