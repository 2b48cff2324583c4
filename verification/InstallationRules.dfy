/** Who may install what: planning and applying decide alike, and everything else is refused. */
module InstallationRules {
  import opened Installation
  import opened InstallationRuns
  import opened Wrappers
  import Versions

  /** A plan is made exactly for a readable prefix without a pending plan, whose binary is the
      recorded one, by a program outside it that is no older and of the same platform. */
  lemma PlannedExactly(w: World, f: Files, exe: Executable, now: int)
    ensures MakePlan(w, Some(f), exe, now).Some? <==>
            && exe.outside && Names(f) <= 64 && f.pending.None?
            && (f.record.None? ==> f.binary.None?)
            && (f.record.Some? ==>
                  && f.binary == Some(f.record.value.digest)
                  && NotNewer(f.record.value, exe.release)
                  && f.record.value.os == exe.release.os
                  && f.record.value.architecture == exe.release.architecture)
    ensures MakePlan(w, Some(f), exe, now).Some? ==>
              var p := MakePlan(w, Some(f), exe, now).value;
              && p.expected == f.record && p.release == exe.release && p.place == w.place
              && p.created == now && p.expires == now + 900_000
  {
    if f.record.Some? && Versions.Parse(f.record.value.version).Some? && Versions.Parse(exe.release.version).Some? {
      Versions.AtMostExactly(
        Versions.Parse(f.record.value.version).value, Versions.Parse(exe.release.version).value);
    }
  }

  /** On a settled prefix a plan that was not carried out yet is applied exactly when it is
      approved, not expired, and the very plan that the program would make for the prefix as
      it is. The plan's own expectation is taken to be of the same platform. */
  lemma AppliedExactly(w: World, f: Files, exe: Executable, plan: Plan, approved: string, now: int, steps: nat)
    requires Safe(w, f) && f.pending.None? && !Completed(f, plan, approved) && steps >= 9
    requires plan.expected.Some? ==>
               && plan.expected.value.os == plan.release.os
               && plan.expected.value.architecture == plan.release.architecture
    ensures Apply(w, f, exe, plan, approved, now, steps).0.Done? <==>
            && approved == w.digest(plan) && plan.created <= now <= plan.created + 900_000
            && MakePlan(w, Some(f), exe.(source := plan.source), plan.created) == Some(plan)
  {
    WritesFinish(f, plan, approved, false, steps);
  }

  /** A plan that is not the approved one changes nothing, owned prefix or not. */
  lemma UnapprovedIsRefused(w: World, s: System, exe: Executable, plan: Plan, approved: string, now: int, steps: nat)
    requires approved != w.digest(plan)
    ensures Effect(w, s, Attempt(exe, plan, approved, now, steps)) == (Refused, s)
  {
  }

  /** Nor does one for another place, or one whose expiry was altered. */
  lemma AlteredIsRefused(w: World, s: System, exe: Executable, plan: Plan, approved: string, now: int, steps: nat)
    requires plan.place != w.place || plan.expires != plan.created + 900_000
    ensures Effect(w, s, Attempt(exe, plan, approved, now, steps)) == (Refused, s)
  {
  }

  /** Nor does one outside its quarter of an hour, unless it is pending or carried out. */
  lemma ExpiredIsRefused(w: World, s: System, exe: Executable, plan: Plan, approved: string, now: int, steps: nat)
    requires now < plan.created || now > plan.created + 900_000
    requires s.files.pending != Some(plan) && !Completed(s.files, plan, approved)
    ensures Effect(w, s, Attempt(exe, plan, approved, now, steps)) == (Refused, s)
  {
  }

  /** Another program, older or newer or of another platform, cannot act for a plan. */
  lemma OtherProgramIsRefused(w: World, s: System, exe: Executable, plan: Plan, approved: string, now: int, steps: nat)
    requires || plan.release.version != exe.release.version || plan.release.os != exe.release.os
             || plan.release.architecture != exe.release.architecture
    ensures Effect(w, s, Attempt(exe, plan, approved, now, steps)) == (Refused, s)
  {
  }

  // ---- Where a run stops ----------------------------------------------------------

  /** The first write of several, done, begun or not begun. */
  lemma FirstWrite(f: Files, x: Write, rest: seq<Write>, steps: nat)
    ensures Performed(f, [x] + rest, steps)
         == if steps == 0 then f
            else if x != DropPending && steps == 1 then f.(temps := f.temps + 1)
            else Performed(Perform(f, x), rest, steps - if x == DropPending then 1 else 2)
  {
    assert ([x] + rest)[1..] == rest && ([x] + rest)[0] == x;
  }

  /** Record, receipt, and the end of the pending plan, of which n steps are done. */
  function Closed(f: Files, plan: Plan, approved: string, n: nat): Files {
    Files(
      if n >= 5 then None else f.pending,
      f.binary,
      if n >= 2 then Some(plan.release) else f.record,
      if n >= 4 then Some(Receipt(approved, plan.place, plan.release)) else f.receipt,
      f.temps + if n == 1 || n == 3 then 1 else 0)
  }

  lemma ClosingStops(f: Files, plan: Plan, approved: string, steps: nat)
    ensures Performed(f, Closing(plan, approved), steps) == Closed(f, plan, approved, steps)
  {
    var c := Closing(plan, approved);
    assert c == [c[0]] + ([c[1]] + ([c[2]] + []));
    FirstWrite(f, c[0], [c[1]] + ([c[2]] + []), steps);
    if steps >= 2 {
      var f1 := Perform(f, c[0]);
      FirstWrite(f1, c[1], [c[2]] + [], steps - 2);
      if steps >= 4 { FirstWrite(Perform(f1, c[1]), c[2], [], steps - 4); }
    }
  }

  /** A run that stops after some of its steps has written its pending plan, the binary, the
      record and the receipt in this order, two steps each, and then removed the pending plan;
      in the middle of a replacement it leaves a temporary file. */
  lemma StopsExactly(f: Files, exe: Executable, plan: Plan, approved: string, steps: nat)
    requires Ready(f, exe, plan, false)
    ensures var release := plan.release;
            Install(f, exe, plan, approved, false, steps)
            == (if steps >= 9 then Done(Receipt(approved, plan.place, release)) else Interrupted,
                Files(
                  if steps >= 9 then None else if steps >= 2 then Some(plan) else f.pending,
                  if steps >= 4 then Some(release.digest) else f.binary,
                  if steps >= 6 then Some(release) else f.record,
                  if steps >= 8 then Some(Receipt(approved, plan.place, release)) else f.receipt,
                  f.temps + if steps in {1, 3, 5, 7} then 1 else 0))
  {
    var a, b, closing := SetPending(plan), SetBinary(plan.release.digest), Closing(plan, approved);
    WritesFinish(f, plan, approved, false, steps);
    assert [a, b] + closing == [a] + ([b] + closing);
    FirstWrite(f, a, [b] + closing, steps);
    if steps >= 2 {
      FirstWrite(Perform(f, a), b, closing, steps - 2);
      if steps >= 4 { ClosingStops(Perform(Perform(f, a), b), plan, approved, steps - 4); }
    }
  }

  /** One that resumes where the binary is in place already only closes the plan. */
  lemma ResumedStopsExactly(f: Files, exe: Executable, plan: Plan, approved: string, steps: nat)
    requires InventoryFits(f) && f.binary == Some(plan.release.digest)
    ensures Install(f, exe, plan, approved, true, steps)
         == (if steps >= 5 then Done(Receipt(approved, plan.place, plan.release)) else Interrupted,
             Closed(f, plan, approved, steps))
  {
    WritesFinish(f, plan, approved, true, steps);
    ClosingStops(f, plan, approved, steps);
  }

  /** Completion is answered with the receipt that is there, by the digest that names it. */
  lemma ReplayedExactly(w: World, f: Files, exe: Executable, plan: Plan, approved: string, now: int, steps: nat)
    requires Admissible(w, exe, plan, approved) && f.pending.None?
    requires f.receipt.Some? && f.receipt.value.digest == approved
    requires f.record == Some(plan.release) && f.binary == Some(plan.release.digest)
    ensures Apply(w, f, exe, plan, approved, now, steps)
         == (Done(Receipt(approved, plan.place, plan.release)), f)
  {
  }
}
