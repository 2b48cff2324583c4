/** What the triggers of personal organizations achieve over whole transactions, and the two
    orders of work they do not see. */
module PersonalOwnership {
  import opened PersonalOrganizations
  import opened Sets
  import opened Wrappers

  // ---- The invariant --------------------------------------------------------------

  /** Exactly one membership, the owner's, with role owner and active. */
  ghost predicate SingleOwner(t: Tables, id: string)
    requires id in t.organizations
  {
    exists k :: k in t.members && OwnersRow(t.members[k], id, t.organizations[id])
                && forall j | j in t.members && t.members[j].organization == id :: j == k
  }

  ghost predicate Good(t: Tables) {
    && ReferencesHold(t)
    && forall id | id in t.organizations && t.organizations[id].kind.Personal? :: SingleOwner(t, id)
  }

  // ---- Inside a transaction -------------------------------------------------------

  ghost predicate OnlyOwners(t: Tables) {
    forall k | k in t.members && IsPersonal(t, t.members[k].organization) ::
      OwnersRow(t.members[k], t.members[k].organization, t.organizations[t.members[k].organization])
  }

  ghost predicate AtMostOne(t: Tables) {
    forall j, k | j in t.members && k in t.members && t.members[j].organization == t.members[k].organization
                  && IsPersonal(t, t.members[k].organization) :: j == k
  }

  ghost predicate HasMember(t: Tables, id: string) {
    exists k :: k in t.members && t.members[k].organization == id
  }

  /** A personal organization without a membership is still waiting for its check. */
  ghost predicate Awaited(w: Work) {
    forall id | IsPersonal(w.tables, id) ::
      HasMember(w.tables, id) || Inserted(id, w.tables.organizations[id]) in w.queue
  }

  /** What every row change should keep. */
  ghost predicate Core(w: Work) {
    OnlyOwners(w.tables) && AtMostOne(w.tables) && Awaited(w)
  }

  // ---- Exactly which changes keep it ----------------------------------------------

  /** The memberships that already name the id are at most one, and the owner's. */
  ghost predicate ReadyFor(t: Tables, id: string, o: Organization) {
    && (forall k | k in t.members && t.members[k].organization == id :: OwnersRow(t.members[k], id, o))
    && (forall j, k | j in t.members && k in t.members
                      && t.members[j].organization == id && t.members[k].organization == id :: j == k)
  }

  /** Only two changes can do harm: a personal organization inserted under an id that
      memberships name already, and a personal organization moved to another id. */
  ghost predicate Keeps(w: Work, c: RowChange) {
    match c
    case InsertOrganization(id, o) => o.kind.Personal? ==> ReadyFor(w.tables, id, o)
    case UpdateOrganization(id, newId, o) =>
      id in w.tables.organizations && o.kind.Personal? ==>
        ReadyFor(w.tables, newId, o) && (HasMember(w.tables, newId) || Inserted(newId, o) in w.queue)
    case _ => true
  }

  lemma OneOrganization(w: Work, v: Work, id: string, o: Organization)
    requires Core(w) && v.tables.members == w.tables.members
    requires id in v.tables.organizations && v.tables.organizations[id] == o && o.kind.Personal?
    requires forall x | x != id && IsPersonal(v.tables, x) ::
               IsPersonal(w.tables, x) && v.tables.organizations[x] == w.tables.organizations[x]
    requires forall q | q in w.queue :: q in v.queue
    ensures Core(v) <==> ReadyFor(v.tables, id, o) && (HasMember(v.tables, id) || Inserted(id, o) in v.queue)
  {
    var t := v.tables;
    if Core(v) {
      forall k | k in t.members && t.members[k].organization == id ensures OwnersRow(t.members[k], id, o) {
        assert IsPersonal(t, t.members[k].organization);
      }
      forall j, k | j in t.members && k in t.members
                    && t.members[j].organization == id && t.members[k].organization == id
        ensures j == k
      {
        assert IsPersonal(t, t.members[k].organization);
      }
    }
    if ReadyFor(t, id, o) && (HasMember(t, id) || Inserted(id, o) in v.queue) {
      forall x | IsPersonal(t, x) ensures HasMember(t, x) || Inserted(x, t.organizations[x]) in v.queue {
        if x != id { assert HasMember(w.tables, x) ==> HasMember(t, x); }
      }
    }
  }

  lemma InsertedExactly(w: Work, c: RowChange)
    requires Core(w) && Changed(w, c).Some? && c.InsertOrganization?
    ensures Core(Changed(w, c).value) <==> Keeps(w, c)
  {
    var v := Changed(w, c).value;
    if c.organization.kind.Personal? {
      OneOrganization(w, v, c.id, c.organization);
    } else {
      SamePersonal(w, v);
    }
  }

  lemma UpdatedExactly(w: Work, c: RowChange)
    requires Core(w) && Changed(w, c).Some? && c.UpdateOrganization? && c.id in w.tables.organizations
    ensures Core(Changed(w, c).value) <==> Keeps(w, c)
  {
    var v := Changed(w, c).value;
    if c.organization.kind.Personal? {
      assert HasMember(v.tables, c.newId) <==> HasMember(w.tables, c.newId);
      OneOrganization(w, v, c.newId, c.organization);
    } else {
      SamePersonal(w, v);
    }
  }

  /** Fewer personal organizations, and the same memberships. */
  lemma SamePersonal(w: Work, v: Work)
    requires Core(w) && v.tables.members == w.tables.members && forall q | q in w.queue :: q in v.queue
    requires forall x | IsPersonal(v.tables, x) ::
               IsPersonal(w.tables, x) && v.tables.organizations[x] == w.tables.organizations[x]
    ensures Core(v)
  {
    forall x | IsPersonal(v.tables, x)
      ensures HasMember(v.tables, x) || Inserted(x, v.tables.organizations[x]) in v.queue
    {
      assert HasMember(w.tables, x) ==> HasMember(v.tables, x);
    }
  }

  lemma MemberInserted(w: Work, c: RowChange)
    requires Core(w) && Changed(w, c).Some? && c.InsertMember?
    ensures Core(Changed(w, c).value)
  {
    var t, v := w.tables, Changed(w, c).value.tables;
    assert forall id :: IsPersonal(t, id) <==> IsPersonal(v, id);
    forall id | HasMember(t, id) ensures HasMember(v, id) {
      var k :| k in t.members && t.members[k].organization == id;
      assert k in v.members && v.members[k].organization == id;
    }
  }

  lemma MemberUpdated(w: Work, c: RowChange)
    requires Core(w) && Changed(w, c).Some? && c.UpdateMember? && c.key in w.tables.members
    ensures Core(Changed(w, c).value)
  {
    var t, v := w.tables, Changed(w, c).value.tables;
    assert forall id :: IsPersonal(t, id) <==> IsPersonal(v, id);
    forall id | HasMember(t, id) ensures HasMember(v, id) {
      var k :| k in t.members && t.members[k].organization == id;
      var now := if k == c.key then c.newKey else k;
      assert now in v.members && v.members[now].organization == id;
    }
  }

  lemma MemberDeleted(w: Work, c: RowChange)
    requires Core(w) && Changed(w, c).Some? && c.DeleteMember? && c.key in w.tables.members
    ensures Core(Changed(w, c).value)
  {
    var t, v := w.tables, Changed(w, c).value.tables;
    assert forall id :: IsPersonal(t, id) <==> IsPersonal(v, id);
    forall id | IsPersonal(t, id) && HasMember(t, id) ensures HasMember(v, id) {
      var k :| k in t.members && t.members[k].organization == id;
      assert k in v.members && v.members[k].organization == id;
    }
  }

  /** The invariant survives a row change exactly when the change keeps it. */
  lemma ChangeExactly(w: Work, c: RowChange)
    requires Core(w) && Changed(w, c).Some?
    ensures Core(Changed(w, c).value) <==> Keeps(w, c)
  {
    match c
    case InsertAccount(_) => SamePersonal(w, Changed(w, c).value);
    case DeleteAccount(_) => SamePersonal(w, Changed(w, c).value);
    case InsertOrganization(_, _) => InsertedExactly(w, c);
    case UpdateOrganization(id, _, _) => if id in w.tables.organizations { UpdatedExactly(w, c); }
    case DeleteOrganization(_) => SamePersonal(w, Changed(w, c).value);
    case InsertMember(_, _) => MemberInserted(w, c);
    case UpdateMember(key, _, _) => if key in w.tables.members { MemberUpdated(w, c); }
    case DeleteMember(key) => if key in w.tables.members { MemberDeleted(w, c); }
  }

  // ---- Along a run ----------------------------------------------------------------

  /** Every change that the statement carries out keeps the invariant, in the tables it finds. */
  ghost predicate ChangesKeep(w: Work, cs: seq<RowChange>)
    decreases |cs|
  {
    cs != [] && Changed(w, cs[0]).Some? ==>
      Keeps(w, cs[0]) && ChangesKeep(Changed(w, cs[0]).value, cs[1..])
  }

  ghost predicate Keeping(w: Work, ss: seq<Statement>)
    decreases |ss|
  {
    ss != [] ==>
      && (ss[0].Rows? ==> ChangesKeep(w, ss[0].changes))
      && (Executed(w, ss[0]).Some? ==> Keeping(Executed(w, ss[0]).value, ss[1..]))
  }

  /** The invariant itself, before and after every change. */
  ghost predicate CoreAlong(w: Work, cs: seq<RowChange>)
    decreases |cs|
  {
    Core(w) && (cs != [] && Changed(w, cs[0]).Some? ==> CoreAlong(Changed(w, cs[0]).value, cs[1..]))
  }

  ghost predicate CoreThroughout(w: Work, ss: seq<Statement>)
    decreases |ss|
  {
    && Core(w)
    && (ss != [] ==>
          && (ss[0].Rows? ==> CoreAlong(w, ss[0].changes))
          && (Executed(w, ss[0]).Some? ==> CoreThroughout(Executed(w, ss[0]).value, ss[1..])))
  }

  lemma {:induction false} ChangesExactly(w: Work, cs: seq<RowChange>)
    requires Core(w)
    ensures ChangesKeep(w, cs) <==> CoreAlong(w, cs)
    ensures ChangesKeep(w, cs) && AllChanged(w, cs).Some? ==> Core(AllChanged(w, cs).value)
    decreases |cs|
  {
    if cs != [] && Changed(w, cs[0]).Some? {
      ChangeExactly(w, cs[0]);
      if Keeps(w, cs[0]) { ChangesExactly(Changed(w, cs[0]).value, cs[1..]); }
    }
  }

  lemma QueuedHasMember(t: Tables, q: Inserted)
    requires q.organization.kind.Personal? && |OwnerRows(t, q.id, q.organization)| == 1
    ensures HasMember(t, q.id)
  {
    var k := SomeElement(OwnerRows(t, q.id, q.organization));
    assert t.members[k].organization == q.id;
  }

  /** Once the queue has passed, nothing is waiting any more. */
  lemma NoneWaiting(w: Work)
    requires Core(w) && QueuePasses(w.tables, w.queue)
    ensures forall id | IsPersonal(w.tables, id) :: HasMember(w.tables, id)
  {
    forall id | IsPersonal(w.tables, id) ensures HasMember(w.tables, id) {
      var q := Inserted(id, w.tables.organizations[id]);
      if q in w.queue { QueuedHasMember(w.tables, q); }
    }
  }

  lemma SettleKeeps(w: Work)
    requires Core(w) && Settled(w).Some?
    ensures Core(Settled(w).value)
  {
    var t := w.tables.(members := w.tables.members - Cascaded(w));
    forall id | IsPersonal(t, id) && HasMember(w.tables, id) ensures HasMember(t, id) {
      var k :| k in w.tables.members && w.tables.members[k].organization == id;
      assert k !in Cascaded(w);
      assert k in t.members && t.members[k].organization == id;
    }
    var u := Work(t, w.queue, w.immediate, {}, {});
    assert Core(u);
    if w.immediate { NoneWaiting(u); }
  }

  lemma ExecuteKeeps(w: Work, s: Statement)
    requires Core(w) && Executed(w, s).Some? && (s.Rows? ==> ChangesKeep(w, s.changes))
    ensures Core(Executed(w, s).value)
  {
    match s
    case Rows(cs) =>
      ChangesExactly(w, cs);
      SettleKeeps(AllChanged(w, cs).value);
    case SetImmediate => NoneWaiting(w);
    case SetDeferred =>
  }

  /** The invariant holds at every point of a transaction exactly when each of its changes
      keeps it; the ends of statements never break it. */
  lemma {:induction false} TransactionExactly(w: Work, ss: seq<Statement>)
    requires Core(w)
    ensures Keeping(w, ss) <==> CoreThroughout(w, ss)
    ensures Keeping(w, ss) && AllExecuted(w, ss).Some? ==> Core(AllExecuted(w, ss).value)
    decreases |ss|
  {
    if ss != [] {
      var s := ss[0];
      if s.Rows? { ChangesExactly(w, s.changes); }
      if (s.Rows? ==> ChangesKeep(w, s.changes)) && Executed(w, s).Some? {
        ExecuteKeeps(w, s);
        TransactionExactly(Executed(w, s).value, ss[1..]);
      }
    }
  }

  // ---- Main results ---------------------------------------------------------------

  function Begun(t: Tables): Work {
    Work(t, [], false, {}, {})
  }

  lemma GoodIsCore(w: Work)
    requires Good(w.tables)
    ensures Core(w)
  {
    var t := w.tables;
    forall k | k in t.members && IsPersonal(t, t.members[k].organization)
      ensures OwnersRow(t.members[k], t.members[k].organization, t.organizations[t.members[k].organization])
    {
      assert SingleOwner(t, t.members[k].organization);
    }
    forall j, k | j in t.members && k in t.members && t.members[j].organization == t.members[k].organization
                  && IsPersonal(t, t.members[k].organization)
      ensures j == k
    {
      assert SingleOwner(t, t.members[k].organization);
    }
    forall id | IsPersonal(t, id) ensures HasMember(t, id) {
      assert SingleOwner(t, id);
    }
  }

  lemma CoreIsGood(w: Work)
    requires Core(w) && ReferencesHold(w.tables) && QueuePasses(w.tables, w.queue)
    ensures Good(w.tables)
  {
    NoneWaiting(w);
    forall id | id in w.tables.organizations && w.tables.organizations[id].kind.Personal?
      ensures SingleOwner(w.tables, id)
    {
      assert HasMember(w.tables, id);
      var k :| k in w.tables.members && w.tables.members[k].organization == id;
      assert OwnersRow(w.tables.members[k], id, w.tables.organizations[id]);
    }
  }

  lemma {:induction false} ReferencesStay(w: Work, ss: seq<Statement>)
    requires ReferencesHold(w.tables) && AllExecuted(w, ss).Some?
    ensures ReferencesHold(AllExecuted(w, ss).value.tables)
    decreases |ss|
  {
    if ss != [] { ReferencesStay(Executed(w, ss[0]).value, ss[1..]); }
  }

  /** At a commit the promise holds exactly when the invariant does, whatever happened
      before. */
  lemma CommitExactly(t: Tables, ss: seq<Statement>)
    requires ReferencesHold(t) && Committed(t, ss).Some?
    ensures Good(Committed(t, ss).value) <==> Core(AllExecuted(Begun(t), ss).value)
  {
    var end := AllExecuted(Begun(t), ss).value;
    ReferencesStay(Begun(t), ss);
    if Core(end) { CoreIsGood(end); }
    if Good(end.tables) { GoodIsCore(end); }
  }

  /** Whatever a keeping transaction does, if it commits, every personal organization has
      exactly one membership, and it is its owner's. */
  lemma CommitKeepsGood(t: Tables, ss: seq<Statement>)
    requires Good(t) && Keeping(Begun(t), ss) && Committed(t, ss).Some?
    ensures Good(Committed(t, ss).value)
  {
    GoodIsCore(Begun(t));
    TransactionExactly(Begun(t), ss);
    CommitExactly(t, ss);
  }

  /** A transaction that commits, or leaves no trace. */
  function Next(t: Tables, ss: seq<Statement>): Tables {
    if Committed(t, ss).Some? then Committed(t, ss).value else t
  }

  /** Any number of transactions, one after the other. */
  function History(t: Tables, transactions: seq<seq<Statement>>): Tables
    decreases |transactions|
  {
    if transactions == [] then t else History(Next(t, transactions[0]), transactions[1..])
  }

  /** Every transaction that commits keeps the invariant, in the tables it finds. */
  ghost predicate KeepingHistory(t: Tables, transactions: seq<seq<Statement>>)
    decreases |transactions|
  {
    transactions != [] ==>
      && (Committed(t, transactions[0]).Some? ==> Keeping(Begun(t), transactions[0]))
      && KeepingHistory(Next(t, transactions[0]), transactions[1..])
  }

  lemma {:induction false} AlwaysOneOwner(t: Tables, transactions: seq<seq<Statement>>)
    requires Good(t) && KeepingHistory(t, transactions)
    ensures Good(History(t, transactions))
    decreases |transactions|
  {
    if transactions != [] {
      if Committed(t, transactions[0]).Some? { CommitKeepsGood(t, transactions[0]); }
      AlwaysOneOwner(Next(t, transactions[0]), transactions[1..]);
    }
  }

  // ---- A rule that needs no tables ------------------------------------------------

  /** The organizations that memberships may name without their row: those the statement
      has deleted or given a membership before. */
  function Named(c: RowChange): set<string> {
    match c
    case InsertMember(_, m) => {m.organization}
    case DeleteOrganization(id) => {id}
    case _ => {}
  }

  predicate OrderlyChange(c: RowChange, named: set<string>) {
    match c
    case InsertOrganization(id, _) => id !in named
    case UpdateOrganization(id, newId, _) => newId == id
    case _ => true
  }

  /** Organizations keep their ids, and none is inserted after a membership that
      names it or after its own deletion in the same statement. */
  predicate OrderlyChanges(cs: seq<RowChange>, named: set<string>) {
    cs == [] || (OrderlyChange(cs[0], named) && OrderlyChanges(cs[1..], named + Named(cs[0])))
  }

  predicate Orderly(s: Statement) {
    s.Rows? ==> OrderlyChanges(s.changes, {})
  }

  ghost predicate OnlyNamedMissing(t: Tables, named: set<string>) {
    forall k | k in t.members :: t.members[k].organization in t.organizations || t.members[k].organization in named
  }

  lemma OrderlyChangeKeeps(w: Work, c: RowChange, named: set<string>)
    requires Core(w) && OnlyNamedMissing(w.tables, named) && OrderlyChange(c, named) && Changed(w, c).Some?
    ensures Keeps(w, c) && OnlyNamedMissing(Changed(w, c).value.tables, named + Named(c))
  {
    if c.UpdateOrganization? && c.id in w.tables.organizations {
      assert c.organization.kind.Personal? ==> w.tables.organizations[c.id] == c.organization;
    }
  }

  lemma {:induction false} OrderlyChangesKeep(w: Work, cs: seq<RowChange>, named: set<string>)
    requires Core(w) && OnlyNamedMissing(w.tables, named) && OrderlyChanges(cs, named)
    ensures ChangesKeep(w, cs)
    decreases |cs|
  {
    if cs != [] && Changed(w, cs[0]).Some? {
      OrderlyChangeKeeps(w, cs[0], named);
      ChangeExactly(w, cs[0]);
      OrderlyChangesKeep(Changed(w, cs[0]).value, cs[1..], named + Named(cs[0]));
    }
  }

  /** Transactions that leave ids alone and insert organizations before their memberships
      always keep the invariant. */
  lemma {:induction false} OrderlyIsKeeping(w: Work, ss: seq<Statement>)
    requires Core(w) && ReferencesHold(w.tables) && forall s | s in ss :: Orderly(s)
    ensures Keeping(w, ss)
    decreases |ss|
  {
    if ss != [] {
      var s := ss[0];
      assert s in ss;
      if s.Rows? { OrderlyChangesKeep(w, s.changes, {}); }
      if Executed(w, s).Some? {
        ExecuteKeeps(w, s);
        OrderlyIsKeeping(Executed(w, s).value, ss[1..]);
      }
    }
  }

  // ---- What the triggers do not see -----------------------------------------------

  /** A personal organization takes another id before its membership exists; a corporate one
      takes the old id and satisfies the deferred check in its place. */
  function Rekeyed(x: string, y: string, owner: string): seq<Statement> {
    seq(5, i requires 0 <= i < 5 => Rows([RekeyedChange(x, y, owner, i)]))
  }

  const NOTHING := Tables({}, map[], map[])

  lemma OneChange(w: Work, c: RowChange)
    ensures Executed(w, Rows([c])) == if Changed(w, c).None? then None else Settled(Changed(w, c).value)
  {
    assert [c][0] == c && [c][1..] == [];
    if Changed(w, c).Some? {
      var next := Changed(w, c).value;
      assert AllChanged(next, []) == Some(next);
    }
  }

  lemma SettlesQuietly(w: Work)
    requires w.deletedOrganizations == {} && w.deletedAccounts == {} && !w.immediate && ReferencesHold(w.tables)
    ensures Settled(w) == Some(w)
  {
    assert Cascaded(w) == {};
    assert w.tables.members - {} == w.tables.members;
  }

  lemma RunOne(w: Work, s: Statement, rest: seq<Statement>, next: Work)
    requires Executed(w, s) == Some(next)
    ensures AllExecuted(w, [s] + rest) == AllExecuted(next, rest)
  {
    assert ([s] + rest)[1..] == rest;
  }

  /** One change that deletes nothing, as a statement of its own. */
  lemma Step(w: Work, c: RowChange, next: Work, rest: seq<Statement>)
    requires Changed(w, c) == Some(next)
    requires next.deletedOrganizations == {} && next.deletedAccounts == {} && !next.immediate
    requires ReferencesHold(next.tables)
    ensures AllExecuted(w, [Rows([c])] + rest) == AllExecuted(next, rest)
  {
    OneChange(w, c);
    SettlesQuietly(next);
    RunOne(w, Rows([c]), rest, next);
  }

  lemma OneOwnerRow(t: Tables, key: int, id: string, owner: string, o: Organization)
    requires t.members == map[key := Membership(id, owner, "owner", Active)] && o.owner == Some(owner)
    ensures |OwnerRows(t, id, o)| == 1
  {
    assert OwnerRows(t, id, o) == {key};
  }

  /** The work after each of the five statements. */
  function RekeyedWork(x: string, y: string, owner: string, n: nat): Work {
    var personal, corporate := Organization(Personal, Some(owner)), Organization(Corporate, None);
    Work(
      Tables(
        if n == 0 then {} else {owner},
        if n <= 1 then map[] else if n == 2 then map[x := personal]
        else if n == 3 then map[y := personal] else map[x := corporate, y := personal],
        if n <= 4 then map[] else map[1 := Membership(x, owner, "owner", Active)]),
      if n <= 1 then [] else if n <= 3 then [Inserted(x, personal)]
      else [Inserted(x, personal), Inserted(x, corporate)],
      false, {}, {})
  }

  function RekeyedChange(x: string, y: string, owner: string, n: nat): RowChange {
    var personal := Organization(Personal, Some(owner));
    if n == 0 then InsertAccount(owner)
    else if n == 1 then InsertOrganization(x, personal)
    else if n == 2 then UpdateOrganization(x, y, personal)
    else if n == 3 then InsertOrganization(x, Organization(Corporate, None))
    else InsertMember(1, Membership(x, owner, "owner", Active))
  }

  lemma RekeyedStep(x: string, y: string, owner: string, n: nat)
    requires OrganizationId(x) && OrganizationId(y) && x != y && n < 5
    ensures Changed(RekeyedWork(x, y, owner, n), RekeyedChange(x, y, owner, n))
         == Some(RekeyedWork(x, y, owner, n + 1))
    ensures ReferencesHold(RekeyedWork(x, y, owner, n + 1).tables)
  {
    var w, next := RekeyedWork(x, y, owner, n), RekeyedWork(x, y, owner, n + 1);
    var changed := Changed(w, RekeyedChange(x, y, owner, n)).value;
    assert changed.tables.accounts == next.tables.accounts;
    assert changed.tables.organizations == next.tables.organizations;
    assert changed.queue == next.queue;
  }

  lemma {:induction false} RekeyedFrom(x: string, y: string, owner: string, n: nat, rest: seq<Statement>)
    requires OrganizationId(x) && OrganizationId(y) && x != y && n <= 5
    requires rest == seq(5 - n, i requires 0 <= i < 5 - n => Rows([RekeyedChange(x, y, owner, n + i)]))
    ensures AllExecuted(RekeyedWork(x, y, owner, n), rest) == Some(RekeyedWork(x, y, owner, 5))
    decreases 5 - n
  {
    if n < 5 {
      RekeyedStep(x, y, owner, n);
      RekeyedFrom(x, y, owner, n + 1, rest[1..]);
      assert rest == [Rows([RekeyedChange(x, y, owner, n)])] + rest[1..];
      Step(RekeyedWork(x, y, owner, n), RekeyedChange(x, y, owner, n), RekeyedWork(x, y, owner, n + 1), rest[1..]);
    }
  }

  lemma RekeyedSteps(x: string, y: string, owner: string) returns (end: Work)
    requires OrganizationId(x) && OrganizationId(y) && x != y
    ensures AllExecuted(Begun(NOTHING), Rekeyed(x, y, owner)) == Some(end)
    ensures end == RekeyedWork(x, y, owner, 5)
  {
    end := RekeyedWork(x, y, owner, 5);
    RekeyedFrom(x, y, owner, 0, Rekeyed(x, y, owner));
  }

  /** It commits, and the personal organization has no membership at all. */
  lemma RekeyingLosesTheOwner(x: string, y: string, owner: string)
    requires OrganizationId(x) && OrganizationId(y) && x != y
    ensures Good(NOTHING) && Committed(NOTHING, Rekeyed(x, y, owner)).Some?
    ensures !Good(Committed(NOTHING, Rekeyed(x, y, owner)).value)
  {
    var end := RekeyedSteps(x, y, owner);
    var personal := Organization(Personal, Some(owner));
    OneOwnerRow(end.tables, 1, x, owner, personal);
    assert QueuePasses(end.tables, end.queue);
    assert !SingleOwner(end.tables, y);
  }

  /** One statement inserts memberships before the organization they name. */
  function Early(x: string, owner: string, other: string): seq<Statement> {
    [ Rows([InsertAccount(owner), InsertAccount(other)]),
      Rows([InsertMember(1, Membership(x, owner, "owner", Active)),
            InsertMember(2, Membership(x, other, "member", Active)),
            InsertOrganization(x, Organization(Personal, Some(owner)))]) ]
  }

  lemma EarlySteps(x: string, owner: string, other: string) returns (end: Work)
    requires OrganizationId(x) && owner != other
    ensures AllExecuted(Begun(NOTHING), Early(x, owner, other)) == Some(end)
    ensures end.queue == [Inserted(x, Organization(Personal, Some(owner)))]
    ensures end.tables == Tables({owner, other}, map[x := Organization(Personal, Some(owner))],
              map[1 := Membership(x, owner, "owner", Active), 2 := Membership(x, other, "member", Active)])
  {
    var personal := Organization(Personal, Some(owner));
    var m, n := Membership(x, owner, "owner", Active), Membership(x, other, "member", Active);
    var w0 := Begun(NOTHING);
    var half := w0.(tables := Tables({owner}, map[], map[]));
    var w1 := w0.(tables := Tables({owner, other}, map[], map[]));
    var w2 := w1.(tables := w1.tables.(members := map[1 := m]));
    var w3 := w1.(tables := w1.tables.(members := map[1 := m, 2 := n]));
    end := w3.(tables := w3.tables.(organizations := map[x := personal]), queue := [Inserted(x, personal)]);
    var a, b := InsertAccount(owner), InsertAccount(other);
    var c, d, e := InsertMember(1, m), InsertMember(2, n), InsertOrganization(x, personal);
    assert {} + {owner} == {owner} && {owner} + {other} == {owner, other};
    assert [] + [Inserted(x, personal)] == [Inserted(x, personal)];
    assert Changed(w0, a) == Some(half) && Changed(half, b) == Some(w1);
    MoreChanged(w0, a, [b] + [], half);
    MoreChanged(half, b, [], w1);
    SettlesQuietly(w1);
    assert Changed(w1, c) == Some(w2) && Changed(w2, d) == Some(w3) && Changed(w3, e) == Some(end);
    MoreChanged(w1, c, [d] + ([e] + []), w2);
    MoreChanged(w2, d, [e] + [], w3);
    MoreChanged(w3, e, [], end);
    SettlesQuietly(end);
    var first, second := [a] + ([b] + []), [c] + ([d] + ([e] + []));
    RunOne(w0, Rows(first), [Rows(second)] + [], w1);
    RunOne(w1, Rows(second), [], end);
    assert first == [a, b] && second == [c, d, e];
    assert Early(x, owner, other) == [Rows(first)] + ([Rows(second)] + []);
  }

  lemma MoreChanged(w: Work, c: RowChange, rest: seq<RowChange>, next: Work)
    requires Changed(w, c) == Some(next)
    ensures AllChanged(w, [c] + rest) == AllChanged(next, rest)
  {
    assert ([c] + rest)[1..] == rest;
  }

  /** It commits, and the personal organization has a second member. */
  lemma EarlyMembershipsAreNotChecked(x: string, owner: string, other: string)
    requires OrganizationId(x) && owner != other
    ensures Good(NOTHING) && Committed(NOTHING, Early(x, owner, other)).Some?
    ensures !Good(Committed(NOTHING, Early(x, owner, other)).value)
  {
    var end := EarlySteps(x, owner, other);
    var personal := Organization(Personal, Some(owner));
    assert OwnerRows(end.tables, x, personal) == {1};
    assert QueuePasses(end.tables, end.queue);
    assert !SingleOwner(end.tables, x) by {
      assert 1 in end.tables.members && 2 in end.tables.members;
      assert end.tables.members[1].organization == x && end.tables.members[2].organization == x;
    }
  }
}
