/** The retained lifecycle of a project and the older two-valued state that is kept as its
    projection, row trigger and constraints included. */
module ProjectLifecycle {
  import opened Wrappers

  /** A column value: None is NULL. */
  type Text = Option<string>

  datatype Project = Project(state: Text, lifecycle: Text, restore: Text)

  /** The columns a statement sets. */
  datatype Change = Change(state: Option<Text>, lifecycle: Option<Text>, restore: Option<Text>)

  const ACTIVE := Some("active")
  const DEPRECATED := Some("deprecated")
  const ARCHIVED := Some("archived")
  const DELETED := Some("deleted")

  predicate Live(lifecycle: Text) {
    lifecycle == ACTIVE || lifecycle == DEPRECATED
  }

  predicate Allowed(lifecycle: Text) {
    Live(lifecycle) || lifecycle == ARCHIVED || lifecycle == DELETED
  }

  function Projection(lifecycle: Text): Text {
    if lifecycle == ACTIVE then ACTIVE else ARCHIVED
  }

  /** The constraints of the table. */
  predicate Valid(p: Project) {
    && (p.state == ACTIVE || p.state == ARCHIVED)
    && Allowed(p.lifecycle)
    && Live(p.restore)
    && p.state == Projection(p.lifecycle)
  }

  function Assigned(value: Text, change: Option<Text>): Text {
    if change.Some? then change.value else value
  }

  function Changed(p: Project, c: Change): Project {
    Project(Assigned(p.state, c.state), Assigned(p.lifecycle, c.lifecycle), Assigned(p.restore, c.restore))
  }

  /** What an insert starts from: the column defaults. */
  const DEFAULTS := Project(ACTIVE, None, ACTIVE)

  const WIDTH := 16

  /** A text that a column of 16 characters takes: whatever is beyond is blank, and is cut
      off. What is left of a text cut off so is no allowed value. */
  predicate Fits(text: Option<Text>) {
    text.Some? && text.value.Some? ==>
      forall i | WIDTH <= i < |text.value.value| :: text.value.value[i] == ' '
  }

  lemma FitsExactly(text: string)
    ensures |text| <= 16 ==> Fits(Some(Some(text)))
    ensures |text| > 16 ==> (Fits(Some(Some(text))) <==> forall i | 16 <= i < |text| :: text[i] == ' ')
  {
  }

  predicate ChangeFits(c: Change) {
    Fits(c.state) && Fits(c.lifecycle) && Fits(c.restore)
  }

  // ---- What the trigger does ------------------------------------------------------

  /** The state was changed and the lifecycle was not: an older writer. */
  predicate StateOnly(before: Project, p: Project) {
    p.lifecycle == before.lifecycle && p.state != before.state
  }

  function Lifecycle(before: Option<Project>, p: Project): Text {
    match before
    case None => if p.lifecycle.Some? then p.lifecycle else p.state
    case Some(b) => if StateOnly(b, p) then p.state else p.lifecycle
  }

  predicate Refused(before: Option<Project>, p: Project) {
    before.Some? && StateOnly(before.value, p) && before.value.lifecycle == DELETED
  }

  function Fired(before: Option<Project>, p: Project): Project {
    var lifecycle := Lifecycle(before, p);
    Project(
      Projection(lifecycle), lifecycle,
      if before.Some? && lifecycle != before.value.lifecycle && Live(before.value.lifecycle)
      then before.value.lifecycle else p.restore)
  }

  /** One row written: too wide, refused by the trigger, refused by a constraint, or stored. */
  function Written(before: Option<Project>, c: Change): Option<Project> {
    var p := Changed(if before.Some? then before.value else DEFAULTS, c);
    if !ChangeFits(c) || Refused(before, p) || !Valid(Fired(before, p)) then None else Some(Fired(before, p))
  }

  class ProjectTable {
    var rows: map<string, Project>

    constructor ()
      ensures rows == map[]
    {
      rows := map[];
    }

    /** The trigger assigns the new row's columns one after the other. */
    method FireTrigger(before: Option<Project>, given: Project) returns (r: Option<Project>)
      ensures r == if Refused(before, given) then None else Some(Fired(before, given))
    {
      var row := given;
      if before.None? {
        if row.lifecycle.None? {
          row := row.(lifecycle := row.state);
        }
      } else if row.lifecycle == before.value.lifecycle && row.state != before.value.state {
        if before.value.lifecycle == DELETED {
          return None;
        }
        row := row.(lifecycle := row.state);
      }
      if before.Some? && row.lifecycle != before.value.lifecycle && Live(before.value.lifecycle) {
        row := row.(restore := before.value.lifecycle);
      }
      row := row.(state := if row.lifecycle == ACTIVE then ACTIVE else ARCHIVED);
      return Some(row);
    }

    /** Insert a row or update it; a refused statement changes nothing. */
    method Write(id: string, inserting: bool, c: Change) returns (ok: bool)
      modifies this
      ensures ok <==> && inserting == (id !in old(rows))
                      && Written(if inserting then None else Some(old(rows)[id]), c).Some?
      ensures rows == if ok then old(rows)[id := Written(if inserting then None else Some(old(rows)[id]), c).value]
                      else old(rows)
      ensures (forall x | x in old(rows) :: Valid(old(rows)[x])) ==> forall x | x in rows :: Valid(rows[x])
    {
      if inserting != (id !in rows) || !ChangeFits(c) {
        return false;
      }
      var before := if inserting then None else Some(rows[id]);
      var row := FireTrigger(before, Changed(if inserting then DEFAULTS else rows[id], c));
      if row.None? || !Valid(row.value) {
        return false;
      }
      rows := rows[id := row.value];
      return true;
    }
  }

  // ---- Whole histories of a row ---------------------------------------------------

  /** The versions a row goes through: an insert, then updates; refused ones leave it. */
  function Versions(first: Change, updates: seq<Change>): (v: seq<Project>)
    ensures v == [] || |v| == |updates| + 1
  {
    if updates == [] then
      var p := Written(None, first);
      if p.Some? then [p.value] else []
    else
      var before := Versions(first, updates[..|updates| - 1]);
      if before == [] then []
      else
        before + [Updated(before[|before| - 1], updates[|updates| - 1])]
  }

  /** The last live lifecycle among the versions, or the default. */
  function LastLive(versions: seq<Project>): Text {
    if versions == [] then ACTIVE
    else if Live(versions[|versions| - 1].lifecycle) then versions[|versions| - 1].lifecycle
    else LastLive(versions[..|versions| - 1])
  }

  /** The lifecycle a statement asks for: the one it names, or, when it only changes the
      state, that state. */
  function Wanted(before: Option<Project>, c: Change): Text {
    if c.lifecycle.Some? && (before.None? || c.lifecycle.value != before.value.lifecycle)
       && (before.Some? || c.lifecycle.value.Some?)
    then c.lifecycle.value
    else if c.state.Some? && (before.None? || c.state.value != before.value.state) then c.state.value
    else if before.Some? then before.value.lifecycle
    else ACTIVE
  }

  /** Exactly which writes are refused: a state alone on a deleted row, a lifecycle that is
      not allowed, and a restore value that is not allowed, unless the write leaves a live
      lifecycle and so has its restore value replaced. No write is refused because its state
      contradicts its lifecycle or is no state at all, as long as it fits its column. */
  lemma RefusedExactly(before: Option<Project>, c: Change)
    requires before.Some? ==> Valid(before.value)
    ensures Written(before, c).None? <==>
            || !ChangeFits(c)
            || Wanted(before, c) !in {Some("active"), Some("deprecated"), Some("archived"), Some("deleted")}
            || (before.Some? && before.value.lifecycle == Some("deleted")
                && (c.lifecycle.None? || c.lifecycle.value == Some("deleted"))
                && c.state.Some? && c.state.value != Some("archived"))
            || (c.restore.Some? && c.restore.value !in {Some("active"), Some("deprecated")}
                && !(before.Some? && before.value.lifecycle in {Some("active"), Some("deprecated")}
                     && Wanted(before, c) != before.value.lifecycle))
    ensures Written(before, c).Some? ==>
              && Written(before, c).value.lifecycle == Wanted(before, c)
              && Written(before, c).value.state
                 == (if Wanted(before, c) == Some("active") then Some("active") else Some("archived"))
  {
  }

  lemma LastLiveOneMore(versions: seq<Project>, p: Project)
    ensures LastLive(versions + [p]) == if Live(p.lifecycle) then p.lifecycle else LastLive(versions)
  {
    assert (versions + [p])[..|versions|] == versions;
  }

  /** The update does not set the restore value of a row that is retired and stays so. */
  predicate LeavesRestore(before: Project, c: Change) {
    c.restore.Some? && !Live(before.lifecycle) && Written(Some(before), c).Some? ==>
      c.restore.value == before.restore || Live(Written(Some(before), c).value.lifecycle)
  }

  predicate Remembers(v: seq<Project>) {
    v != [] && !Live(v[|v| - 1].lifecycle) ==> v[|v| - 1].restore == LastLive(v)
  }

  function Updated(p: Project, c: Change): Project {
    if Written(Some(p), c).Some? then Written(Some(p), c).value else p
  }

  lemma RemembersOneMore(v: seq<Project>, c: Change)
    requires v != [] && Remembers(v) && LeavesRestore(v[|v| - 1], c)
    ensures Remembers(v + [Updated(v[|v| - 1], c)])
  {
    var last := v[|v| - 1];
    LastLiveOneMore(v, Updated(last, c));
    if !Live(Updated(last, c).lifecycle) && Live(last.lifecycle) {
      assert v == v[..|v| - 1] + [last];
      LastLiveOneMore(v[..|v| - 1], last);
    }
  }

  lemma FirstRemembers(first: Change)
    requires first.restore == None || first.restore == Some(ACTIVE)
    ensures Remembers(Versions(first, []))
  {
    var v := Versions(first, []);
    if v != [] {
      assert v == [] + [v[0]];
      LastLiveOneMore([], v[0]);
    }
  }

  /** Nobody sets another restore value while the row is retired, starting with the insert. */
  predicate Undisturbed(first: Change, updates: seq<Change>) {
    if updates == [] then
      Versions(first, []) != [] && !Live(Versions(first, [])[0].lifecycle) ==>
        first.restore == None || first.restore == Some(ACTIVE)
    else
      var n := |updates| - 1;
      && Undisturbed(first, updates[..n])
      && (Versions(first, updates[..n]) != [] ==> LeavesRestore(Versions(first, updates[..n])[n], updates[n]))
  }

  /** A retired row remembers the last live lifecycle it had, as long as nobody overwrites
      it while the row is retired; what writers set before or while they retire it does not
      matter. */
  lemma {:induction false} RetiredRemembers(first: Change, updates: seq<Change>)
    requires Undisturbed(first, updates)
    ensures Remembers(Versions(first, updates))
  {
    if updates == [] {
      if Versions(first, []) != [] && !Live(Versions(first, [])[0].lifecycle) { FirstRemembers(first); }
    } else {
      var n := |updates| - 1;
      RetiredRemembers(first, updates[..n]);
      var before := Versions(first, updates[..n]);
      if before != [] { RemembersOneMore(before, updates[n]); }
    }
  }

  /** Updates of an existing row. */
  function After(p: Project, updates: seq<Change>): Project {
    if updates == [] then p else Updated(After(p, updates[..|updates| - 1]), updates[|updates| - 1])
  }

  /** No number of statements that leave the lifecycle alone revives a deleted row. */
  lemma {:induction false} DeletedStays(p: Project, updates: seq<Change>)
    requires p.lifecycle == DELETED && Valid(p)
    requires forall c | c in updates :: c.lifecycle.None?
    ensures After(p, updates).lifecycle == DELETED && Valid(After(p, updates))
  {
    if updates != [] {
      DeletedStays(p, updates[..|updates| - 1]);
      assert updates[|updates| - 1] in updates;
    }
  }

  /** A deleted row comes back exactly through a statement that names another lifecycle. */
  lemma RevivedExactly(p: Project, c: Change)
    requires p.lifecycle == DELETED && Valid(p)
    ensures (Written(Some(p), c).Some? && Written(Some(p), c).value.lifecycle != DELETED) <==>
            && c.lifecycle.Some? && c.lifecycle.value in {ACTIVE, DEPRECATED, ARCHIVED}
            && (c.restore.Some? ==> Live(c.restore.value)) && Fits(c.state)
  {
  }

  lemma {:induction false} RestoreKept(p: Project, updates: seq<Change>)
    requires Valid(p) && forall i | 0 <= i <= |updates| :: !Live(After(p, updates[..i]).lifecycle)
    requires forall c | c in updates :: c.restore.None? || c.restore.value == p.restore
    ensures Valid(After(p, updates)) && !Live(After(p, updates).lifecycle)
    ensures After(p, updates).restore == p.restore
  {
    if updates != [] {
      var init := updates[..|updates| - 1];
      assert forall i | 0 <= i <= |init| :: init[..i] == updates[..i];
      RestoreKept(p, init);
      assert updates[|updates| - 1] in updates;
      assert updates[..|updates|] == updates;
    }
  }

  lemma RestoresTo(q: Project, lifecycle: Text)
    requires Valid(q) && !Live(q.lifecycle) && Live(lifecycle)
    ensures var r := Written(Some(q), Change(None, Some(lifecycle), None));
            r.Some? && r.value.lifecycle == lifecycle && r.value.state == Projection(lifecycle)
  {
  }

  lemma Retires(p: Project, retire: Change)
    requires Valid(p) && Live(p.lifecycle) && Written(Some(p), retire).Some?
    requires !Live(Written(Some(p), retire).value.lifecycle)
    ensures Valid(Written(Some(p), retire).value) && Written(Some(p), retire).value.restore == p.lifecycle
  {
  }

  /** Retire a live row, change it in any way that keeps it retired and does not set another
      restore value, and restore it: the lifecycle and the state it had come back. */
  lemma RetireRestore(p: Project, retire: Change, between: seq<Change>, restore: Change)
    requires Valid(p) && Live(p.lifecycle) && Written(Some(p), retire).Some?
    requires var q := Written(Some(p), retire).value;
             && (forall i | 0 <= i <= |between| :: !Live(After(q, between[..i]).lifecycle))
             && restore == Change(None, Some(After(q, between).restore), None)
    requires forall c | c in between :: c.restore.None? || c.restore.value == p.lifecycle
    ensures var q := After(Written(Some(p), retire).value, between);
            && Written(Some(q), restore).Some?
            && Written(Some(q), restore).value.lifecycle == p.lifecycle
            && Written(Some(q), restore).value.state == p.state
  {
    var q := Written(Some(p), retire).value;
    assert between[..0] == [] && After(q, between[..0]) == q;
    Retires(p, retire);
    RestoreKept(q, between);
    RestoresTo(After(q, between), p.lifecycle);
  }

  // ---- The backfill ---------------------------------------------------------------

  datatype Place = Place(organization: string, id: string)

  datatype Identity = Identity(namespace: string, state: string)

  predicate Remote(identities: map<Place, Identity>, at: Place) {
    at in identities && identities[at].namespace == "remote"
  }

  /** The joined update: projects without a remote identity keep a NULL lifecycle. */
  function Backfilled(states: map<Place, Text>, identities: map<Place, Identity>): map<Place, Project> {
    map at | at in states ::
      if !Remote(identities, at) then Project(states[at], None, ACTIVE)
      else if identities[at].state == "deleted" then Project(ARCHIVED, DELETED, ACTIVE)
      else Project(states[at], states[at], ACTIVE)
  }

  /** The migration adds its constraints to the rows it filled. */
  function Migrated(states: map<Place, Text>, identities: map<Place, Identity>): Option<map<Place, Project>> {
    var rows := Backfilled(states, identities);
    if forall at | at in rows :: Valid(rows[at]) then Some(rows) else None
  }

  /** The migration goes through exactly when every project has its remote identity, and
      then it keeps each state except that of deleted projects. */
  lemma MigratesExactly(states: map<Place, Text>, identities: map<Place, Identity>)
    requires forall at | at in states :: states[at] == ACTIVE || states[at] == ARCHIVED
    ensures Migrated(states, identities).Some? <==> forall at | at in states :: Remote(identities, at)
    ensures Migrated(states, identities).Some? ==>
              var rows := Migrated(states, identities).value;
              && rows.Keys == states.Keys
              && forall at | at in rows ::
                   && Valid(rows[at])
                   && (rows[at].lifecycle == DELETED <==> identities[at].state == "deleted")
                   && (rows[at].lifecycle != DELETED ==> rows[at].state == rows[at].lifecycle == states[at])
  {
    var rows := Backfilled(states, identities);
    if forall at | at in states :: Remote(identities, at) {
      forall at | at in rows ensures Valid(rows[at]) {
        assert at in states;
      }
    }
    if at :| at in states && !Remote(identities, at) {
      assert at in rows && !Valid(rows[at]);
    }
  }
}
