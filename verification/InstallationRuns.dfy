/** All runs of installation: any number of programs planning, applying, stopping anywhere
    and resuming on one prefix. */
module InstallationRuns {
  import opened Installation
  import opened Wrappers
  import Versions

  /** A program that found the prefix absent, passed its checks, and has not yet entered. */
  datatype Ticket = Ticket(exe: Executable, plan: Plan, approved: string)

  datatype System = System(owned: bool, files: Files, waiting: set<Ticket>)

  const INITIAL := System(false, EMPTY, {})

  /** Every step may be cut short; `steps` is how far it gets. */
  datatype Step =
    | Attempt(exe: Executable, plan: Plan, approved: string, now: int, steps: nat)
    | Enter(ticket: Ticket, steps: nat)

  /** An absent prefix is looked at without a lock: what a program finds then may have
      changed when it enters. */
  function Effect(w: World, s: System, step: Step): (Outcome, System) {
    match step
    case Attempt(exe, plan, approved, now, steps) =>
      if s.owned then
        var (outcome, files) := Apply(w, s.files, exe, plan, approved, now, steps);
        (outcome, s.(files := files))
      else if Admissible(w, exe, plan, approved) && InTime(plan, now) then
        (Waiting, s.(waiting := s.waiting + {Ticket(exe, plan, approved)}))
      else (Refused, s)
    case Enter(t, steps) =>
      if t in s.waiting then
        var (outcome, files) := Install(s.files, t.exe, t.plan, t.approved, false, steps);
        (outcome, s.(owned := true, files := files))
      else (Refused, s)
  }

  function Next(w: World, s: System, step: Step): System {
    Effect(w, s, step).1
  }

  function Run(w: World, s: System, steps: seq<Step>): System
    decreases |steps|
  {
    if steps == [] then s else Run(w, Next(w, s, steps[0]), steps[1..])
  }

  // ---- The invariant --------------------------------------------------------------

  /** The plan can be resumed by the program that it installs. */
  predicate Sane(w: World, plan: Plan) {
    Admissible(w, Executable(plan.release, plan.source, true), plan, w.digest(plan))
  }

  predicate Safe(w: World, f: Files) {
    match f.pending
    case None =>
      && f.binary == DigestOf(f.record)
      && (f.record.None? ==> f.receipt.None?)
      && (f.record.Some? ==> f.receipt.Some? && f.receipt.value.release == f.record.value)
    case Some(p) =>
      && Sane(w, p)
      && (|| (f.binary == DigestOf(p.expected) && f.record == p.expected)
          || (f.binary == Some(p.release.digest) && f.record == p.expected)
          || (f.binary == Some(p.release.digest) && f.record == Some(p.release)))
  }

  predicate SafeSystem(w: World, s: System) {
    && Safe(w, s.files)
    && (!s.owned ==> s.files == EMPTY)
    && (forall t | t in s.waiting :: Admissible(w, t.exe, t.plan, t.approved))
  }

  /** Safe after every write. */
  predicate SafeAlong(w: World, f: Files, writes: seq<Write>)
    decreases |writes|
  {
    Safe(w, f) && (writes != [] ==> SafeAlong(w, Perform(f, writes[0]), writes[1..]))
  }

  lemma {:induction false} PerformedSafe(w: World, f: Files, writes: seq<Write>, steps: nat)
    requires SafeAlong(w, f, writes)
    ensures Safe(w, Performed(f, writes, steps))
    decreases |writes|
  {
    if writes != [] && steps >= Steps(writes[0]) {
      PerformedSafe(w, Perform(f, writes[0]), writes[1..], steps - Steps(writes[0]));
    }
  }

  lemma AlongOne(w: World, f: Files, x: Write, rest: seq<Write>)
    requires Safe(w, f) && SafeAlong(w, Perform(f, x), rest)
    ensures SafeAlong(w, f, [x] + rest)
  {
    assert ([x] + rest)[1..] == rest;
  }

  lemma ClosingSafe(w: World, f: Files, plan: Plan, approved: string)
    requires Safe(w, f) && f.pending == Some(plan) && f.binary == Some(plan.release.digest)
    ensures SafeAlong(w, f, Closing(plan, approved))
  {
    var c := Closing(plan, approved);
    var f1 := Perform(f, c[0]);
    var f2 := Perform(f1, c[1]);
    var f3 := Perform(f2, c[2]);
    assert SafeAlong(w, f3, []);
    AlongOne(w, f2, c[2], []);
    assert [c[2]] + [] == [c[2]];
    AlongOne(w, f1, c[1], [c[2]]);
    AlongOne(w, f, c[0], [c[1]] + [c[2]]);
    assert c == [c[0]] + ([c[1]] + [c[2]]);
  }

  lemma WritesSafe(w: World, f: Files, exe: Executable, plan: Plan, approved: string, resumed: bool)
    requires Safe(w, f) && Admissible(w, exe, plan, approved) && Ready(f, exe, plan, resumed)
    requires resumed ==> f.pending == Some(plan)
    ensures SafeAlong(w, f, Writes(f, plan, approved, resumed))
  {
    var closing := Closing(plan, approved);
    if Published(f, plan, resumed) {
      ClosingSafe(w, f, plan, approved);
    } else {
      var a, b := SetPending(plan), SetBinary(plan.release.digest);
      var f1 := Perform(f, a);
      var f2 := Perform(f1, b);
      ClosingSafe(w, f2, plan, approved);
      AlongOne(w, f1, b, closing);
      AlongOne(w, f, a, [b] + closing);
      assert [a, b] + closing == [a] + ([b] + closing);
    }
  }

  lemma InstallSafe(w: World, f: Files, exe: Executable, plan: Plan, approved: string, resumed: bool, steps: nat)
    requires Safe(w, f) && Admissible(w, exe, plan, approved)
    requires resumed ==> f.pending == Some(plan)
    ensures Safe(w, Install(f, exe, plan, approved, resumed, steps).1)
  {
    if Ready(f, exe, plan, resumed) {
      WritesSafe(w, f, exe, plan, approved, resumed);
      PerformedSafe(w, f, Writes(f, plan, approved, resumed), steps);
    }
  }

  lemma NextSafe(w: World, s: System, step: Step)
    requires SafeSystem(w, s)
    ensures SafeSystem(w, Next(w, s, step))
  {
    match step
    case Attempt(exe, plan, approved, now, steps) =>
      if s.owned {
        var a := Admit(w, s.files, exe, plan, approved, now);
        if a.Resume? || a.Start? {
          InstallSafe(w, s.files, exe, plan, approved, a.Resume?, steps);
        }
      }
    case Enter(t, steps) =>
      if t in s.waiting {
        InstallSafe(w, s.files, t.exe, t.plan, t.approved, false, steps);
      }
  }

  /** The crash invariant holds in every reachable state. */
  lemma {:induction false} AlwaysSafe(w: World, s: System, steps: seq<Step>)
    requires SafeSystem(w, s)
    ensures SafeSystem(w, Run(w, s, steps))
    decreases |steps|
  {
    if steps != [] {
      NextSafe(w, s, steps[0]);
      AlwaysSafe(w, Next(w, s, steps[0]), steps[1..]);
    }
  }

  lemma ReachableIsSafe(w: World, steps: seq<Step>)
    ensures SafeSystem(w, Run(w, INITIAL, steps))
  {
    AlwaysSafe(w, INITIAL, steps);
  }

  /** What `status` says of a reachable prefix. */
  lemma StatusMeaning(w: World, steps: seq<Step>)
    requires var f := Run(w, INITIAL, steps).files; InventoryFits(f)
    ensures var f := Run(w, INITIAL, steps).files;
            var (state, exact) := Status(Some(f)).value;
            && (state == Pending <==> f.pending.Some?)
            && (state == Verified <==> f.pending.None? && f.record.Some?)
            && (state == Uninitialized ==> f.record.None? && f.binary.None? && f.receipt.None?)
            && (!exact ==> state == Pending)
  {
    ReachableIsSafe(w, steps);
  }

  // ---- Complete runs --------------------------------------------------------------

  /** The files that a completed plan leaves. */
  function Finished(f: Files, plan: Plan, approved: string): Files {
    Files(None, Some(plan.release.digest), Some(plan.release), Some(ReceiptOf(plan, approved)), f.temps)
  }

  lemma PerformedOne(f: Files, x: Write, rest: seq<Write>, steps: nat)
    ensures steps >= Steps(x) ==>
              Performed(f, [x] + rest, steps) == Performed(Perform(f, x), rest, steps - Steps(x))
    ensures AllSteps([x] + rest) == Steps(x) + AllSteps(rest)
  {
    assert ([x] + rest)[1..] == rest;
  }

  lemma ClosingFinishes(f: Files, plan: Plan, approved: string, steps: nat)
    requires f.binary == Some(plan.release.digest)
    ensures AllSteps(Closing(plan, approved)) == 5
    ensures steps >= 5 ==> Performed(f, Closing(plan, approved), steps) == Finished(f, plan, approved)
  {
    var c := Closing(plan, approved);
    assert c == [c[0]] + ([c[1]] + ([c[2]] + []));
    var f1 := Perform(f, c[0]);
    PerformedOne(f, c[0], [c[1]] + ([c[2]] + []), steps);
    PerformedOne(f1, c[1], [c[2]] + [], if steps >= 2 then steps - 2 else 0);
    PerformedOne(Perform(f1, c[1]), c[2], [], if steps >= 4 then steps - 4 else 0);
  }

  lemma WritesFinish(f: Files, plan: Plan, approved: string, resumed: bool, steps: nat)
    ensures AllSteps(Writes(f, plan, approved, resumed)) == if Published(f, plan, resumed) then 5 else 9
    ensures steps >= AllSteps(Writes(f, plan, approved, resumed)) ==>
              Performed(f, Writes(f, plan, approved, resumed), steps) == Finished(f, plan, approved)
  {
    var closing := Closing(plan, approved);
    if Published(f, plan, resumed) {
      ClosingFinishes(f, plan, approved, steps);
    } else {
      var a, b := SetPending(plan), SetBinary(plan.release.digest);
      var f2 := Perform(Perform(f, a), b);
      assert [a, b] + closing == [a] + ([b] + closing);
      ClosingFinishes(f2, plan, approved, if steps >= 4 then steps - 4 else 0);
      assert AllSteps([a] + ([b] + closing)) == 9 by {
        assert ([a] + ([b] + closing))[1..] == [b] + closing && ([b] + closing)[1..] == closing;
      }
      if steps >= 9 {
        PerformedOne(f, a, [b] + closing, steps);
        PerformedOne(Perform(f, a), b, closing, steps - 2);
      }
    }
  }

  /** The matching program, run to its end, completes a pending plan exactly when the names
      in the directory are within the inventory bound; otherwise it changes nothing. */
  lemma Recovery(w: World, history: seq<Step>, exe: Executable, now: int, steps: nat)
    requires var f := Run(w, INITIAL, history).files;
             && f.pending.Some? && exe.release == f.pending.value.release && exe.outside && steps >= 9
    ensures var f := Run(w, INITIAL, history).files;
            var p := f.pending.value;
            Apply(w, f, exe, p, w.digest(p), now, steps)
            == if InventoryFits(f) then (Done(ReceiptOf(p, w.digest(p))), Finished(f, p, w.digest(p)))
               else (Refused, f)
  {
    ReachableIsSafe(w, history);
    var f := Run(w, INITIAL, history).files;
    var p := f.pending.value;
    WritesFinish(f, p, w.digest(p), true, steps);
  }

  /** Steps that a stop cut short. */
  function Interruptions(w: World, s: System, steps: seq<Step>): nat
    decreases |steps|
  {
    if steps == [] then 0
    else (if Effect(w, s, steps[0]).0.Interrupted? then 1 else 0) + Interruptions(w, Next(w, s, steps[0]), steps[1..])
  }

  lemma {:induction false} TempsGrow(f: Files, writes: seq<Write>, steps: nat)
    ensures f.temps <= Performed(f, writes, steps).temps
         <= f.temps + if steps < AllSteps(writes) then 1 else 0
    decreases |writes|
  {
    if writes != [] && steps >= Steps(writes[0]) {
      TempsGrow(Perform(f, writes[0]), writes[1..], steps - Steps(writes[0]));
    }
  }

  lemma NextTemps(w: World, s: System, step: Step)
    ensures Next(w, s, step).files.temps
         <= s.files.temps + if Effect(w, s, step).0.Interrupted? then 1 else 0
  {
    match step
    case Attempt(exe, plan, approved, now, steps) =>
      if s.owned {
        var a := Admit(w, s.files, exe, plan, approved, now);
        TempsGrow(s.files, Writes(s.files, plan, approved, a.Resume?), steps);
      }
    case Enter(t, steps) =>
      TempsGrow(s.files, Writes(s.files, t.plan, t.approved, false), steps);
  }

  lemma {:induction false} TempsBounded(w: World, s: System, steps: seq<Step>)
    ensures Run(w, s, steps).files.temps <= s.files.temps + Interruptions(w, s, steps)
    decreases |steps|
  {
    if steps != [] {
      NextTemps(w, s, steps[0]);
      TempsBounded(w, Next(w, s, steps[0]), steps[1..]);
    }
  }

  /** Up to 58 interruptions, recovery cannot fail. */
  lemma FewInterruptionsRecover(w: World, history: seq<Step>)
    requires Interruptions(w, INITIAL, history) <= 58
    ensures InventoryFits(Run(w, INITIAL, history).files)
  {
    TempsBounded(w, INITIAL, history);
  }

  /** Beyond the bound nothing changes any more, whoever tries. */
  lemma {:induction false} StuckForever(w: World, s: System, steps: seq<Step>)
    requires s.owned && !InventoryFits(s.files)
    ensures Run(w, s, steps).files == s.files
    decreases |steps|
  {
    if steps != [] {
      StuckForever(w, Next(w, s, steps[0]), steps[1..]);
    }
  }

  // ---- Too many interruptions -----------------------------------------------------

  /** The program installs itself on an empty prefix, and stops after the first file. */
  function FirstInterruption(exe: Executable, plan: Plan, approved: string): seq<Step> {
    [Attempt(exe, plan, approved, plan.created, 0), Enter(Ticket(exe, plan, approved), 2)]
  }

  lemma {:induction false} RunConcat(w: World, s: System, a: seq<Step>, b: seq<Step>)
    ensures Run(w, s, a + b) == Run(w, Run(w, s, a), b)
    decreases |a|
  {
    if a == [] {
      assert a + b == b;
    } else {
      RunConcat(w, Next(w, s, a[0]), a[1..], b);
      assert (a + b)[1..] == a[1..] + b;
    }
  }

  lemma RunFirst(w: World, s: System, x: Step, rest: seq<Step>)
    ensures Run(w, s, [x] + rest) == Run(w, Next(w, s, x), rest)
    ensures Interruptions(w, s, [x] + rest)
         == (if Effect(w, s, x).0.Interrupted? then 1 else 0) + Interruptions(w, Next(w, s, x), rest)
  {
    assert ([x] + rest)[1..] == rest;
  }

  /** A plan of the program for an absent prefix. */
  predicate FirstPlan(w: World, exe: Executable, plan: Plan) {
    MakePlan(w, None, exe, plan.created) == Some(plan)
  }

  lemma FirstInterrupted(w: World, exe: Executable, plan: Plan)
    requires FirstPlan(w, exe, plan)
    ensures var s := Run(w, INITIAL, FirstInterruption(exe, plan, w.digest(plan)));
            s.owned && s.files == EMPTY.(pending := Some(plan))
  {
    var t := Ticket(exe, plan, w.digest(plan));
    var steps := FirstInterruption(exe, plan, w.digest(plan));
    var s1 := Next(w, INITIAL, steps[0]);
    assert t in s1.waiting && s1.files == EMPTY;
    var writes := Writes(EMPTY, plan, t.approved, false);
    assert Performed(EMPTY, writes, 2) == EMPTY.(pending := Some(plan)) by {
      assert writes[0] == SetPending(plan);
    }
    assert steps[1..] == [steps[1]] && steps[1..][1..] == [];
    assert Run(w, s1, steps[1..]) == Next(w, s1, steps[1]);
  }

  lemma {:induction false} InterruptionsConcat(w: World, s: System, a: seq<Step>, b: seq<Step>)
    ensures Interruptions(w, s, a + b) == Interruptions(w, s, a) + Interruptions(w, Run(w, s, a), b)
    decreases |a|
  {
    if a == [] {
      assert a + b == b;
    } else {
      InterruptionsConcat(w, Next(w, s, a[0]), a[1..], b);
      assert (a + b)[0] == a[0] && (a + b)[1..] == a[1..] + b;
    }
  }

  /** An attempt at the pending plan that stops before its first file is in place. */
  lemma Torn(w: World, s: System, exe: Executable, plan: Plan) returns (step: Step)
    requires s.owned && s.files.pending == Some(plan) && Admissible(w, exe, plan, w.digest(plan))
    requires Ready(s.files, exe, plan, true)
    ensures Effect(w, s, step) == (Interrupted, s.(files := s.files.(temps := s.files.temps + 1)))
  {
    step := Attempt(exe, plan, w.digest(plan), plan.created, 1);
    WritesFinish(s.files, plan, w.digest(plan), true, 1);
    var writes := Writes(s.files, plan, w.digest(plan), true);
    assert !writes[0].DropPending?;
  }

  /** Each further attempt stops before its first file is in place. */
  lemma {:induction false} InterruptedAgain(w: World, exe: Executable, plan: Plan, s: System, n: nat)
    returns (steps: seq<Step>)
    requires s.owned && s.files.pending == Some(plan) && Admissible(w, exe, plan, w.digest(plan))
    requires Ready(s.files, exe, plan, true) && Names(s.files) + n <= INVENTORY + 1
    ensures Run(w, s, steps) == s.(files := s.files.(temps := s.files.temps + n))
    ensures Interruptions(w, s, steps) == n
    decreases n
  {
    if n == 0 {
      steps := [];
    } else {
      var step := Torn(w, s, exe, plan);
      var t := Next(w, s, step);
      var rest: seq<Step> := [];
      if n > 1 {
        rest := InterruptedAgain(w, exe, plan, t, n - 1);
      }
      steps := [step] + rest;
      RunFirst(w, s, step, rest);
      assert steps[0] == step && steps[1..] == rest;
    }
  }

  /** So there are reachable pending plans that nothing can complete any more. */
  lemma RecoveryCanBeLost(w: World, exe: Executable, plan: Plan)
    requires FirstPlan(w, exe, plan)
    ensures exists history :: var s := Run(w, INITIAL, history);
              s.files.pending == Some(plan) && forall more :: Run(w, s, more).files == s.files
  {
    var first := FirstInterruption(exe, plan, w.digest(plan));
    FirstInterrupted(w, exe, plan);
    var s := Run(w, INITIAL, first);
    var steps := InterruptedAgain(w, exe, plan, s, 62);
    RunConcat(w, INITIAL, first, steps);
    var stuck := Run(w, INITIAL, first + steps);
    forall more ensures Run(w, stuck, more).files == stuck.files {
      StuckForever(w, stuck, more);
    }
  }

  // ---- The bound is the best one --------------------------------------------------

  /** The program installs itself, undisturbed, and then starts on a second plan. */
  function Reinstallation(w: World, exe: Executable, plan: Plan, again: Plan): seq<Step> {
    [ Attempt(exe, plan, w.digest(plan), plan.created, 0),
      Enter(Ticket(exe, plan, w.digest(plan)), 9),
      Attempt(exe, again, w.digest(again), again.created, 3) ]
  }

  lemma SecondStarts(w: World, exe: Executable, f: Files, again: Plan)
    requires MakePlan(w, Some(f), exe, again.created) == Some(again) && !Completed(f, again, w.digest(again))
    ensures Apply(w, f, exe, again, w.digest(again), again.created, 3)
         == (Interrupted, f.(pending := Some(again), temps := f.temps + 1))
  {
    WritesFinish(f, again, w.digest(again), false, 3);
    var writes := Writes(f, again, w.digest(again), false);
    assert writes[0] == SetPending(again) && writes[1] == SetBinary(again.release.digest);
    PerformedOne(f, writes[0], writes[1..], 3);
    assert writes == [writes[0]] + writes[1..];
  }

  lemma ReinstallationStarts(w: World, exe: Executable, plan: Plan, again: Plan)
    requires FirstPlan(w, exe, plan)
    requires var f := Finished(EMPTY, plan, w.digest(plan));
             MakePlan(w, Some(f), exe, again.created) == Some(again) && w.digest(again) != w.digest(plan)
    ensures var s := Run(w, INITIAL, Reinstallation(w, exe, plan, again));
            && s.owned
            && s.files == Finished(EMPTY, plan, w.digest(plan)).(pending := Some(again), temps := 1)
    ensures Interruptions(w, INITIAL, Reinstallation(w, exe, plan, again)) == 1
  {
    var steps := Reinstallation(w, exe, plan, again);
    var s1 := Next(w, INITIAL, steps[0]);
    var s2 := Next(w, s1, steps[1]);
    var f := Finished(EMPTY, plan, w.digest(plan));
    WritesFinish(EMPTY, plan, w.digest(plan), false, 9);
    assert Effect(w, INITIAL, steps[0]).0 == Waiting && Effect(w, s1, steps[1]).0.Done?;
    assert s2.owned && s2.files == f;
    SecondStarts(w, exe, f, again);
    var s3 := Next(w, s2, steps[2]);
    var x, y, z := steps[0], steps[1], steps[2];
    assert steps == [x] + ([y] + ([z] + []));
    RunFirst(w, INITIAL, x, [y] + ([z] + []));
    RunFirst(w, s1, y, [z] + []);
    RunFirst(w, s2, z, []);
  }

  /** With one interruption more, an upgrade can be lost. */
  lemma FiftyNineCanLose(w: World, exe: Executable, plan: Plan, again: Plan)
    requires FirstPlan(w, exe, plan)
    requires var f := Finished(EMPTY, plan, w.digest(plan));
             MakePlan(w, Some(f), exe, again.created) == Some(again) && w.digest(again) != w.digest(plan)
    ensures exists history ::
              && Interruptions(w, INITIAL, history) == 59
              && Run(w, INITIAL, history).files.pending == Some(again)
              && !InventoryFits(Run(w, INITIAL, history).files)
  {
    var first := Reinstallation(w, exe, plan, again);
    ReinstallationStarts(w, exe, plan, again);
    var s := Run(w, INITIAL, first);
    var steps := InterruptedAgain(w, exe, again, s, 58);
    RunConcat(w, INITIAL, first, steps);
    InterruptionsConcat(w, INITIAL, first, steps);
    assert Interruptions(w, INITIAL, first + steps) == 59;
  }

  // ---- Other plans wait -----------------------------------------------------------

  /** The plan that the step completes or resumes. */
  function Acting(step: Step): Plan {
    match step
    case Attempt(_, plan, _, _, _) => plan
    case Enter(t, _) => t.plan
  }

  lemma {:induction false} PendingKept(f: Files, plan: Plan, writes: seq<Write>, steps: nat)
    requires f.pending == Some(plan)
    requires forall x | x in writes :: x.SetPending? ==> x.plan == plan
    requires forall i | 0 <= i < |writes| :: writes[i].DropPending? ==> i == |writes| - 1
    ensures steps < AllSteps(writes) ==> Performed(f, writes, steps).pending == Some(plan)
    decreases |writes|
  {
    if writes != [] && Steps(writes[0]) <= steps < AllSteps(writes) {
      assert writes[0] in writes;
      assert writes[0].DropPending? ==> AllSteps(writes[1..]) == 0;
      PendingKept(Perform(f, writes[0]), plan, writes[1..], steps - Steps(writes[0]));
    }
  }

  lemma InstallKeepsPending(f: Files, exe: Executable, plan: Plan, approved: string, resumed: bool, steps: nat)
    requires f.pending == Some(plan)
    ensures var (outcome, g) := Install(f, exe, plan, approved, resumed, steps);
            g.pending == Some(plan) || outcome.Done?
  {
    PendingKept(f, plan, Writes(f, plan, approved, resumed), steps);
  }

  lemma NextKeepsPending(w: World, s: System, step: Step)
    requires s.owned && s.files.pending.Some?
    requires forall t | t in s.waiting :: t.plan == s.files.pending.value
    ensures var (outcome, t) := Effect(w, s, step);
            && t.owned && t.waiting == s.waiting
            && (t.files.pending == s.files.pending || (outcome.Done? && Acting(step) == s.files.pending.value))
            && (Acting(step) != s.files.pending.value ==> outcome.Refused? && t == s)
  {
    var p := s.files.pending.value;
    match step
    case Attempt(exe, plan, approved, now, steps) =>
      if plan == p { InstallKeepsPending(s.files, exe, plan, approved, true, steps); }
    case Enter(t, steps) =>
      if t in s.waiting { InstallKeepsPending(s.files, t.exe, t.plan, t.approved, false, steps); }
  }

  /** A pending plan stays pending until a step completes that plan, and no step of another
      plan does anything before. The condition: no program with another plan passed its
      checks while the prefix was absent. */
  lemma {:induction false} OnlyItsCompletionEndsAPlan(w: World, s: System, steps: seq<Step>)
    requires s.owned && s.files.pending.Some?
    requires forall t | t in s.waiting :: t.plan == s.files.pending.value
    ensures Run(w, s, steps).files.pending == s.files.pending ||
            exists i | 0 <= i < |steps| ::
              && Acting(steps[i]) == s.files.pending.value
              && Effect(w, Run(w, s, steps[..i]), steps[i]).0.Done?
    decreases |steps|
  {
    if steps != [] {
      NextKeepsPending(w, s, steps[0]);
      var n := Next(w, s, steps[0]);
      assert steps[..0] == [];
      if n.files.pending == s.files.pending {
        OnlyItsCompletionEndsAPlan(w, n, steps[1..]);
        if Run(w, n, steps[1..]).files.pending != n.files.pending {
          var j :| 0 <= j < |steps| - 1 && Acting(steps[1..][j]) == s.files.pending.value
                   && Effect(w, Run(w, n, steps[1..][..j]), steps[1..][j]).0.Done?;
          assert steps[..j + 1][1..] == steps[1..][..j] && steps[..j + 1][0] == steps[0];
          assert Acting(steps[j + 1]) == s.files.pending.value;
          assert Run(w, s, steps[..j + 1]) == Run(w, n, steps[1..][..j]);
        }
      } else {
        assert Run(w, s, steps[..0]) == s;
      }
    }
  }

  /** A program that looked while the prefix was absent does not look at pending.json again:
      it replaces another plan's exactly when the other checks pass and it gets that far. */
  lemma LateEntryExactly(w: World, s: System, t: Ticket, steps: nat)
    requires s.files.pending.Some? && t in s.waiting && t.plan != s.files.pending.value
    ensures Next(w, s, Enter(t, steps)).files.pending == s.files.pending <==>
            !Ready(s.files, t.exe, t.plan, false) || steps < 2
  {
    if Ready(s.files, t.exe, t.plan, false) && steps >= 2 {
      var writes := Writes(s.files, t.plan, t.approved, false);
      assert writes[0] == SetPending(t.plan);
      var f := Perform(s.files, writes[0]);
      var rest := writes[1..];
      if steps - 2 < AllSteps(rest) {
        PendingKept(f, t.plan, rest, steps - 2);
      } else {
        WritesFinish(s.files, t.plan, t.approved, false, steps);
      }
    }
  }

  /** Two programs on an absent prefix: the plan of the second is replaced by the first's. */
  lemma LateEntryReplacesPending(w: World, exe: Executable, plan: Plan, late: Executable, other: Plan)
    requires FirstPlan(w, exe, plan) && FirstPlan(w, late, other) && other != plan
    ensures exists history: seq<Step>, t: Ticket, steps: nat :: var s := Run(w, INITIAL, history);
              && s.files.pending == Some(plan) && t.plan == other
              && Next(w, s, Enter(t, steps)).files.pending == Some(other)
  {
    var t := Ticket(late, other, w.digest(other));
    var look := Attempt(late, other, t.approved, other.created, 0);
    var first := FirstInterruption(exe, plan, w.digest(plan));
    var s1 := Next(w, INITIAL, look);
    assert s1 == INITIAL.(waiting := {t});
    var s2 := Next(w, s1, first[0]);
    var s3 := Next(w, s2, first[1]);
    var writes := Writes(EMPTY, plan, w.digest(plan), false);
    assert writes[0] == SetPending(plan) && Performed(EMPTY, writes, 2) == EMPTY.(pending := Some(plan));
    assert s3.files == EMPTY.(pending := Some(plan)) && t in s3.waiting;
    var others := Writes(s3.files, other, t.approved, false);
    assert others[0] == SetPending(other);
    assert Performed(s3.files, others, 2) == s3.files.(pending := Some(other));
    var history := [look, first[0], first[1]];
    RunFirst(w, INITIAL, look, [first[0]] + ([first[1]] + []));
    RunFirst(w, s1, first[0], [first[1]] + []);
    RunFirst(w, s2, first[1], []);
    assert history == [look] + ([first[0]] + ([first[1]] + []));
    assert Next(w, s3, Enter(t, 2)).files.pending == Some(other);
  }

  // ---- No downgrade, no lost update -----------------------------------------------

  /** The record stays, or rises from an older or equal version. */
  predicate Rises(before: Option<Release>, after: Option<Release>) {
    before == after || (after.Some? && MayReplace(after.value.version, before))
  }

  lemma RisesTransitive(a: Option<Release>, b: Option<Release>, c: Option<Release>)
    requires Rises(a, b) && Rises(b, c)
    ensures Rises(a, c)
  {
    if a.Some? && a != b && b != c {
      Versions.AtMostTransitive(
        Versions.Parse(a.value.version).value,
        Versions.Parse(b.value.version).value,
        Versions.Parse(c.value.version).value);
    }
  }

  lemma {:induction false} RecordWritten(f: Files, release: Release, writes: seq<Write>, steps: nat)
    requires forall x | x in writes :: x.SetRecord? ==> x.release == release
    ensures Performed(f, writes, steps).record in {f.record, Some(release)}
    decreases |writes|
  {
    if writes != [] && steps >= Steps(writes[0]) {
      assert writes[0] in writes;
      RecordWritten(Perform(f, writes[0]), release, writes[1..], steps - Steps(writes[0]));
    }
  }

  lemma InstallRises(w: World, f: Files, exe: Executable, plan: Plan, approved: string, resumed: bool, steps: nat)
    requires Safe(w, f) && Admissible(w, exe, plan, approved)
    requires resumed ==> f.pending == Some(plan)
    ensures Rises(f.record, Install(f, exe, plan, approved, resumed, steps).1.record)
  {
    RecordWritten(f, plan.release, Writes(f, plan, approved, resumed), steps);
  }

  lemma NextRises(w: World, s: System, step: Step)
    requires SafeSystem(w, s)
    ensures Rises(s.files.record, Next(w, s, step).files.record)
  {
    match step
    case Attempt(exe, plan, approved, now, steps) =>
      if s.owned {
        var a := Admit(w, s.files, exe, plan, approved, now);
        if a.Resume? || a.Start? {
          InstallRises(w, s.files, exe, plan, approved, a.Resume?, steps);
        }
      }
    case Enter(t, steps) =>
      if t in s.waiting { InstallRises(w, s.files, t.exe, t.plan, t.approved, false, steps); }
  }

  lemma {:induction false} RunRises(w: World, s: System, steps: seq<Step>)
    requires SafeSystem(w, s)
    ensures Rises(s.files.record, Run(w, s, steps).files.record)
    decreases |steps|
  {
    if steps != [] {
      var n := Next(w, s, steps[0]);
      NextSafe(w, s, steps[0]);
      NextRises(w, s, steps[0]);
      RunRises(w, n, steps[1..]);
      RisesTransitive(s.files.record, n.files.record, Run(w, n, steps[1..]).files.record);
    }
  }

  /** The version that a release string denotes ranks no later than the other's. */
  predicate NotNewer(earlier: Release, later: Release) {
    && Versions.Parse(earlier.version).Some? && Versions.Parse(later.version).Some?
    && Versions.NoLater(Versions.Parse(earlier.version).value, Versions.Parse(later.version).value)
  }

  /** Along every run a record never vanishes, and it changes only to a release whose major,
      minor, patch and preview numbers, in this order, are not lower. */
  lemma NeverDowngrades(w: World, history: seq<Step>, i: nat, j: nat)
    requires i <= j <= |history|
    ensures var before, after := Run(w, INITIAL, history[..i]).files.record, Run(w, INITIAL, history[..j]).files.record;
            before.Some? ==> after.Some? && (before == after || NotNewer(before.value, after.value))
  {
    ReachableIsSafe(w, history[..i]);
    RunConcat(w, INITIAL, history[..i], history[i..j]);
    assert history[..i] + history[i..j] == history[..j];
    RunRises(w, Run(w, INITIAL, history[..i]), history[i..j]);
    var before, after := Run(w, INITIAL, history[..i]).files.record, Run(w, INITIAL, history[..j]).files.record;
    if before.Some? && before != after {
      Versions.AtMostExactly(
        Versions.Parse(before.value.version).value, Versions.Parse(after.value.version).value);
    }
  }

  /** A plan made for another record changes nothing, unless it is the pending plan itself. */
  lemma NoLostUpdate(w: World, s: System, step: Step)
    requires Acting(step).expected != s.files.record && s.files.pending != Some(Acting(step))
    ensures Next(w, s, step).files == s.files
  {
  }

  /** Any number of such plans, one after the other, change nothing. */
  lemma {:induction false} OutdatedPlansChangeNothing(w: World, s: System, steps: seq<Step>)
    requires forall step | step in steps ::
               Acting(step).expected != s.files.record && s.files.pending != Some(Acting(step))
    ensures Run(w, s, steps).files == s.files
    decreases |steps|
  {
    if steps != [] {
      assert steps[0] in steps;
      NoLostUpdate(w, s, steps[0]);
      OutdatedPlansChangeNothing(w, Next(w, s, steps[0]), steps[1..]);
    }
  }

  // ---- Replay ---------------------------------------------------------------------

  /** A completed plan, applied again by any admissible program at any time, even after it
      expired, returns the same receipt and changes nothing. */
  lemma ReplayChangesNothing(w: World, s: System, step: Step, exe: Executable, now: int, steps: nat)
    requires Effect(w, s, step).0.Done? && SafeSystem(w, s)
    requires var approved := if step.Attempt? then step.approved else step.ticket.approved;
             Admissible(w, exe, Acting(step), approved)
    ensures var approved := if step.Attempt? then step.approved else step.ticket.approved;
            var (outcome, t) := Effect(w, s, step);
            Effect(w, t, Attempt(exe, Acting(step), approved, now, steps)) == (outcome, t)
  {
    match step
    case Attempt(other, plan, approved, at, n) =>
      var a := Admit(w, s.files, other, plan, approved, at);
      WritesFinish(s.files, plan, approved, a.Resume?, n);
    case Enter(t, n) =>
      WritesFinish(s.files, t.plan, t.approved, false, n);
  }

  /** A plan that is applied in time, to the prefix it was made for, is carried out. */
  lemma PlansWork(w: World, f: Files, exe: Executable, now: int, later: int, steps: nat)
    requires MakePlan(w, Some(f), exe, now).Some? && now <= later <= now + LIFETIME && steps >= 9
    ensures var p := MakePlan(w, Some(f), exe, now).value;
            var (outcome, g) := Apply(w, f, exe, p, w.digest(p), later, steps);
            && outcome == Done(ReceiptOf(p, w.digest(p)))
            && g.pending.None? && g.record == Some(exe.release) && g.binary == Some(exe.release.digest)
  {
    var p := MakePlan(w, Some(f), exe, now).value;
    WritesFinish(f, p, w.digest(p), false, steps);
  }

  /** So is a plan made for an absent prefix: the program looks in time, and enters. */
  lemma FirstPlansWork(w: World, s: System, exe: Executable, now: int, later: int, looking: nat, steps: nat)
    requires SafeSystem(w, s) && !s.owned
    requires MakePlan(w, None, exe, now).Some? && now <= later <= now + LIFETIME && steps >= 9
    ensures var p := MakePlan(w, None, exe, now).value;
            var looked := Effect(w, s, Attempt(exe, p, w.digest(p), later, looking));
            var (outcome, t) := Effect(w, looked.1, Enter(Ticket(exe, p, w.digest(p)), steps));
            && looked.0 == Waiting && looked.1.files == s.files
            && outcome == Done(ReceiptOf(p, w.digest(p)))
            && t.owned && t.files == Finished(EMPTY, p, w.digest(p))
  {
    var p := MakePlan(w, None, exe, now).value;
    WritesFinish(EMPTY, p, w.digest(p), false, steps);
  }
}
