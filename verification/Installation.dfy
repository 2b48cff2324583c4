/** Archive-owned installation: the four files of a prefix, the plans that change them, and
    a run that may stop between any two steps. */
module Installation {
  import opened Wrappers
  import Versions

  const LIFETIME := 900_000
  const INVENTORY := 64

  /** A binary is known by its SHA-256 digest. */
  datatype Release = Release(version: string, digest: string, os: string, architecture: string)

  /** `place` stands for the prefix and the identity of its parent directory. */
  datatype Plan = Plan(
    schema: nat, action: string, created: int, expires: int, place: string, source: string,
    expected: Option<Release>, release: Release)

  datatype Receipt = Receipt(digest: string, place: string, release: Release)

  /** The running program: what it is, and whether it lies outside the prefix. */
  datatype Executable = Executable(release: Release, source: string, outside: bool)

  /** Where the prefix lies, and the digest of a plan. */
  datatype World = World(place: string, digest: Plan -> string)

  /** An owned directory: `temps` counts the temporary files that interrupted writes left. */
  datatype Files = Files(
    pending: Option<Plan>, binary: Option<string>, record: Option<Release>, receipt: Option<Receipt>,
    temps: nat)

  const EMPTY := Files(None, None, None, None, 0)

  function DigestOf(r: Option<Release>): Option<string> {
    if r.Some? then Some(r.value.digest) else None
  }

  function One<T>(o: Option<T>): nat {
    if o.Some? then 1 else 0
  }

  /** The names in the directory, with its owner and lock files. */
  function Names(f: Files): nat {
    2 + One(f.pending) + One(f.binary) + One(f.record) + One(f.receipt) + f.temps
  }

  predicate InventoryFits(f: Files) {
    Names(f) <= INVENTORY
  }

  // ---- Planning and status --------------------------------------------------------

  /** The release may replace what is recorded. */
  predicate Replaces(release: Release, recorded: Release) {
    && Versions.Parse(release.version).Some? && Versions.Parse(recorded.version).Some?
    && Versions.AtMost(Versions.Parse(recorded.version).value, Versions.Parse(release.version).value)
    && recorded.os == release.os && recorded.architecture == release.architecture
  }

  /** `directory` is None while the prefix is not owned. */
  function MakePlan(w: World, directory: Option<Files>, exe: Executable, now: int): Option<Plan> {
    if !exe.outside then None
    else
      var expected :-
        if directory.None? then Some(None)
        else
          var f := directory.value;
          if || !InventoryFits(f) || f.pending.Some? || f.binary != DigestOf(f.record)
             || (f.record.Some? && !Replaces(exe.release, f.record.value))
          then None
          else Some(f.record);
      Some(Plan(1, "cli.install", now, now + LIFETIME, w.place, exe.source, expected, exe.release))
  }

  datatype State = AbsentPrefix | Pending | Verified | Uninitialized

  /** The state reported, and whether the binary matches the record. */
  function Status(directory: Option<Files>): Option<(State, bool)> {
    if directory.None? then Some((AbsentPrefix, false))
    else
      var f := directory.value;
      if !InventoryFits(f) then None
      else
        var exact := f.binary == DigestOf(f.record);
        Some((
          if f.pending.Some? then Pending else if f.record.Some? && exact then Verified else Uninitialized,
          exact))
  }

  // ---- Applying -------------------------------------------------------------------

  /** The version half of the checks on a plan's expectation. */
  predicate MayReplace(version: string, expected: Option<Release>) {
    expected.Some? ==>
      var recorded := Versions.Parse(expected.value.version);
      var offered := Versions.Parse(version);
      recorded.Some? && offered.Some? && Versions.AtMost(recorded.value, offered.value)
  }

  predicate Admissible(w: World, exe: Executable, plan: Plan, approved: string) {
    && plan.schema == 1 && plan.action == "cli.install"
    && w.digest(plan) == approved
    && plan.place == w.place
    && plan.expires == plan.created + LIFETIME
    && plan.release.version == exe.release.version
    && plan.release.os == exe.release.os
    && plan.release.architecture == exe.release.architecture
    && MayReplace(exe.release.version, plan.expected)
  }

  predicate InTime(plan: Plan, now: int) {
    plan.created <= now <= plan.expires
  }

  function ReceiptOf(plan: Plan, approved: string): Receipt {
    Receipt(approved, plan.place, plan.release)
  }

  predicate Completed(f: Files, plan: Plan, approved: string) {
    && f.receipt.Some? && f.receipt.value.digest == approved
    && f.record == Some(plan.release) && f.binary == Some(plan.release.digest)
  }

  datatype Admission = Refuse | Replay | Resume | Start

  /** What the program decides before it changes anything. */
  function Admit(w: World, f: Files, exe: Executable, plan: Plan, approved: string, now: int): Admission {
    if !Admissible(w, exe, plan, approved) then Refuse
    else if f.pending.Some? then (if f.pending.value == plan then Resume else Refuse)
    else if Completed(f, plan, approved) then Replay
    else if InTime(plan, now) then Start
    else Refuse
  }

  predicate Published(f: Files, plan: Plan, resumed: bool) {
    resumed && f.binary == Some(plan.release.digest)
  }

  /** The checks made under the lock. */
  predicate Ready(f: Files, exe: Executable, plan: Plan, resumed: bool) {
    && InventoryFits(f)
    && (!Published(f, plan, resumed) ==>
          && f.record == plan.expected && f.binary == DigestOf(plan.expected)
          && exe.outside && exe.release.digest == plan.release.digest)
  }

  // ---- Writes ---------------------------------------------------------------------

  datatype Write =
    | SetPending(plan: Plan)
    | SetBinary(digest: string)
    | SetRecord(release: Release)
    | SetReceipt(receipt: Receipt)
    | DropPending

  function Perform(f: Files, x: Write): Files {
    match x
    case SetPending(plan) => f.(pending := Some(plan))
    case SetBinary(digest) => f.(binary := Some(digest))
    case SetRecord(release) => f.(record := Some(release))
    case SetReceipt(receipt) => f.(receipt := Some(receipt))
    case DropPending => f.(pending := None)
  }

  /** Replacing a file creates a temporary file and renames it; removing one is one step. */
  function Steps(x: Write): nat {
    if x.DropPending? then 1 else 2
  }

  /** A run that stops after the given number of steps. */
  function Performed(f: Files, writes: seq<Write>, steps: nat): Files
    decreases |writes|
  {
    if writes == [] || steps == 0 then f
    else if steps < Steps(writes[0]) then f.(temps := f.temps + 1)
    else Performed(Perform(f, writes[0]), writes[1..], steps - Steps(writes[0]))
  }

  function Closing(plan: Plan, approved: string): seq<Write> {
    [SetRecord(plan.release), SetReceipt(ReceiptOf(plan, approved)), DropPending]
  }

  function Writes(f: Files, plan: Plan, approved: string, resumed: bool): seq<Write> {
    if Published(f, plan, resumed) then Closing(plan, approved)
    else [SetPending(plan), SetBinary(plan.release.digest)] + Closing(plan, approved)
  }

  function AllSteps(writes: seq<Write>): nat {
    if writes == [] then 0 else Steps(writes[0]) + AllSteps(writes[1..])
  }

  /** Waiting: the prefix was absent, the checks passed, and the program will enter. */
  datatype Outcome = Refused | Interrupted | Waiting | Done(receipt: Receipt)

  function Install(f: Files, exe: Executable, plan: Plan, approved: string, resumed: bool, steps: nat)
    : (Outcome, Files)
  {
    if !Ready(f, exe, plan, resumed) then (Refused, f)
    else
      var writes := Writes(f, plan, approved, resumed);
      (if steps < AllSteps(writes) then Interrupted else Done(ReceiptOf(plan, approved)),
       Performed(f, writes, steps))
  }

  /** Applying a plan to an owned prefix. The lock is held from the admission to the end. */
  function Apply(w: World, f: Files, exe: Executable, plan: Plan, approved: string, now: int, steps: nat)
    : (Outcome, Files)
  {
    match Admit(w, f, exe, plan, approved, now)
    case Refuse => (Refused, f)
    case Replay => (Done(ReceiptOf(plan, approved)), f)
    case Resume => Install(f, exe, plan, approved, true, steps)
    case Start => Install(f, exe, plan, approved, false, steps)
  }

  // ---- The prefix as the program changes it ---------------------------------------

  class Prefix {
    var pending: Option<Plan>
    var binary: Option<string>
    var record: Option<Release>
    var receipt: Option<Receipt>
    var temps: nat

    function Contents(): Files
      reads this
    {
      Files(pending, binary, record, receipt, temps)
    }

    constructor ()
      ensures Contents() == EMPTY
    {
      pending, binary, record, receipt, temps := None, None, None, None, 0;
    }

    /** One file replaced or removed, unless the run stops first. */
    method Atomic(x: Write, steps: nat) returns (left: Option<nat>)
      modifies this
      ensures left == if steps < Steps(x) then None else Some(steps - Steps(x))
      ensures Contents() ==
              if steps >= Steps(x) then Perform(old(Contents()), x)
              else if steps == 0 then old(Contents())
              else old(Contents()).(temps := old(temps) + 1)
    {
      if steps == 0 {
        return None;
      }
      if x.DropPending? {
        pending := None;
        return Some(steps - 1);
      }
      temps := temps + 1;
      if steps == 1 {
        return None;
      }
      match x {
        case SetPending(plan) => pending := Some(plan);
        case SetBinary(digest) => binary := Some(digest);
        case SetRecord(release) => record := Some(release);
        case SetReceipt(r) => receipt := Some(r);
      }
      temps := temps - 1;
      return Some(steps - 2);
    }

    /** The writes of a run, one after the other. */
    method PerformAll(writes: seq<Write>, steps: nat) returns (finished: bool)
      modifies this
      ensures finished == (AllSteps(writes) <= steps)
      ensures Contents() == Performed(old(Contents()), writes, steps)
    {
      var left: nat := steps;
      for i := 0 to |writes|
        invariant left + AllSteps(writes) == steps + AllSteps(writes[i..])
        invariant Performed(old(Contents()), writes, steps) == Performed(Contents(), writes[i..], left)
      {
        var x := writes[i];
        assert writes[i..][0] == x && writes[i..][1..] == writes[i + 1..];
        var next := Atomic(x, left);
        if next.None? {
          return false;
        }
        left := next.value;
      }
      return true;
    }

    method InstallPlan(exe: Executable, plan: Plan, approved: string, resumed: bool, steps: nat)
      returns (outcome: Outcome)
      modifies this
      ensures (outcome, Contents()) == Install(old(Contents()), exe, plan, approved, resumed, steps)
    {
      if !InventoryFits(Contents()) {
        return Refused;
      }
      var published := resumed && binary == Some(plan.release.digest);
      if !published {
        if record != plan.expected || binary != DigestOf(plan.expected) {
          return Refused;
        }
        if !exe.outside || exe.release.digest != plan.release.digest {
          return Refused;
        }
      }
      var writes := Closing(plan, approved);
      if !published {
        writes := [SetPending(plan), SetBinary(plan.release.digest)] + writes;
      }
      var finished := PerformAll(writes, steps);
      return if finished then Done(ReceiptOf(plan, approved)) else Interrupted;
    }

    method ApplyPlan(w: World, exe: Executable, plan: Plan, approved: string, now: int, steps: nat)
      returns (outcome: Outcome)
      modifies this
      ensures (outcome, Contents()) == Apply(w, old(Contents()), exe, plan, approved, now, steps)
    {
      if !Admissible(w, exe, plan, approved) {
        return Refused;
      }
      if pending.Some? {
        if pending.value != plan {
          return Refused;
        }
      } else {
        if && receipt.Some? && receipt.value.digest == approved
           && record == Some(plan.release) && binary == Some(plan.release.digest)
        {
          return Done(ReceiptOf(plan, approved));
        }
        if now < plan.created || now > plan.expires {
          return Refused;
        }
      }
      outcome := InstallPlan(exe, plan, approved, pending.Some?, steps);
    }
  }
}
