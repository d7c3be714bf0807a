/** The daemon's admission gate (`LifecycleAdmission`): protected work takes a permit while
    the daemon is active, a drain coordinator closes the gate, waits for the permits to go
    and then commits the shutdown or cancels.

    Every atomic operation of the source is one step of the system below, so a run is an
    arbitrary interleaving of any number of admitters, permit drops and drain coordinators. */
module LifecycleAdmissions {
  import opened Sums

  datatype AdmissionState = Active | Draining | ShutdownCommitted

  /** The shared cells: the two atomics, and the `Notify` as one stored permit plus the
      queue of registered waiters. */
  datatype Gate = Gate(state: AdmissionState, activePermits: int, stored: bool, waiters: seq<nat>)

  const NewGate := Gate(Active, 0, false, [])

  // ---------- atomic operations on the cells ----------

  function CompareExchange(g: Gate, expected: AdmissionState, next: AdmissionState): Gate {
    if g.state == expected then g.(state := next) else g
  }

  function FetchAdd(g: Gate, delta: int): Gate {
    g.(activePermits := g.activePermits + delta)
  }

  /** `notify_one`: wakes the longest registered waiter, or stores one permit. */
  function NotifyOne(g: Gate): Gate {
    if g.waiters == [] then g.(stored := true) else g.(waiters := g.waiters[1..])
  }

  /** First poll of a `notified()` future: takes the stored permit, or registers. */
  function PollNotified(g: Gate, waiter: nat): Gate {
    if g.stored then g.(stored := false) else g.(waiters := g.waiters + [waiter])
  }

  function Without(s: seq<nat>, x: nat): seq<nat> {
    if s == [] then []
    else if s[0] == x then Without(s[1..], x)
    else [s[0]] + Without(s[1..], x)
  }

  /** Dropping a registered future: leaves the queue, or passes an unread wakeup on. */
  function DropNotified(g: Gate, waiter: nat): Gate {
    if waiter in g.waiters then g.(waiters := Without(g.waiters, waiter)) else NotifyOne(g)
  }

  // ---------- the interleaved system ----------

  /** Where one admission stands, from its first state check to the drop of its permit. */
  datatype Admission = Checked | Counted | BackingOut | Granted | Notifying | Done

  /** Where one drain request stands, from its winning `begin_draining` to the drop of its guard. */
  datatype Coordinator = Preparing | Checking | Awaiting | Parked | Leaving | Observed | Closing

  datatype System = System(gate: Gate, admissions: seq<Admission>, coordinators: map<nat, Coordinator>)

  const Initial := System(NewGate, [], map[])

  datatype Step =
    | Arrive
    | Count(t: nat)
    | Recheck(t: nat)
    | Release(t: nat)
    | Notify(t: nat)
    | Begin(c: nat)
    | StartWait(c: nat)
    | LoadPermits(c: nat)
    | Poll(c: nat)
    | Wake(c: nat)
    | GiveUp(c: nat)
    | Cancel(c: nat)
    | Commit(c: nat)
    | GuardDrop(c: nat)

  predicate At(s: System, t: nat, a: Admission) {
    t < |s.admissions| && s.admissions[t] == a
  }

  predicate In(s: System, c: nat, phase: Coordinator) {
    c in s.coordinators && s.coordinators[c] == phase
  }

  /** `serialised` says that drain requests hold `lifecycle_control` from before
      `begin_draining` until their guard has dropped. */
  predicate Enabled(s: System, step: Step, serialised: bool) {
    match step
    case Arrive => true
    case Count(t) => At(s, t, Checked)
    case Recheck(t) => At(s, t, Counted)
    case Release(t) => At(s, t, Granted) || At(s, t, BackingOut)
    case Notify(t) => At(s, t, Notifying)
    case Begin(c) => c !in s.coordinators && (serialised ==> s.coordinators == map[])
    case StartWait(c) => In(s, c, Preparing)
    case LoadPermits(c) => In(s, c, Checking)
    case Poll(c) => In(s, c, Awaiting)
    case Wake(c) => In(s, c, Parked) && c !in s.gate.waiters
    case GiveUp(c) => In(s, c, Checking) || In(s, c, Awaiting) || In(s, c, Parked)
    case Cancel(c) => In(s, c, Preparing) || In(s, c, Leaving) || In(s, c, Observed)
    case Commit(c) => In(s, c, Observed)
    case GuardDrop(c) => In(s, c, Preparing) || In(s, c, Leaving) || In(s, c, Observed) || In(s, c, Closing)
  }

  function Next(s: System, step: Step, serialised: bool): System
    requires Enabled(s, step, serialised)
  {
    match step
    case Arrive =>
      if s.gate.state == Active then s.(admissions := s.admissions + [Checked]) else s
    case Count(t) =>
      s.(gate := FetchAdd(s.gate, 1), admissions := s.admissions[t := Counted])
    case Recheck(t) =>
      s.(admissions := s.admissions[t := if s.gate.state == Active then Granted else BackingOut])
    case Release(t) =>
      s.(gate := FetchAdd(s.gate, -1),
         admissions := s.admissions[t := if s.gate.activePermits == 1 then Notifying else Done])
    case Notify(t) =>
      s.(gate := NotifyOne(s.gate), admissions := s.admissions[t := Done])
    case Begin(c) =>
      if s.gate.state == Active then
        s.(gate := CompareExchange(s.gate, Active, Draining), coordinators := s.coordinators[c := Preparing])
      else
        s
    case StartWait(c) => s.(coordinators := s.coordinators[c := Checking])
    case LoadPermits(c) =>
      s.(coordinators := s.coordinators[c := if s.gate.activePermits == 0 then Observed else Awaiting])
    case Poll(c) =>
      s.(gate := PollNotified(s.gate, c),
         coordinators := s.coordinators[c := if s.gate.stored then Checking else Parked])
    case Wake(c) => s.(coordinators := s.coordinators[c := Checking])
    case GiveUp(c) =>
      s.(gate := if In(s, c, Parked) then DropNotified(s.gate, c) else s.gate,
         coordinators := s.coordinators[c := Leaving])
    case Cancel(c) =>
      s.(gate := CompareExchange(s.gate, Draining, Active), coordinators := s.coordinators[c := Closing])
    case Commit(c) =>
      s.(gate := CompareExchange(s.gate, Draining, ShutdownCommitted), coordinators := s.coordinators[c := Closing])
    case GuardDrop(c) =>
      s.(gate := CompareExchange(s.gate, Draining, Active), coordinators := s.coordinators - {c})
  }

  predicate IsRun(s: System, run: seq<Step>, serialised: bool)
    decreases |run|
  {
    run == [] || (Enabled(s, run[0], serialised) && IsRun(Next(s, run[0], serialised), run[1..], serialised))
  }

  function Exec(s: System, run: seq<Step>, serialised: bool): System
    requires IsRun(s, run, serialised)
    decreases |run|
  {
    if run == [] then s else Exec(Next(s, run[0], serialised), run[1..], serialised)
  }

  // ---------- accounting ----------

  /** The admissions that are counted in `active_permits`, granted or about to fail. */
  function Held(a: Admission): nat {
    if a == Counted || a == BackingOut || a == Granted then 1 else 0
  }

  // ---------- the invariant of serialised runs ----------

  ghost predicate NoneGranted(s: System) {
    forall t :: 0 <= t < |s.admissions| ==> s.admissions[t] != Granted
  }

  ghost predicate NotificationPending(s: System) {
    exists t :: 0 <= t < |s.admissions| && s.admissions[t] == Notifying
  }

  ghost predicate CountExact(s: System) {
    s.gate.activePermits == Total(s.admissions, Held)
  }

  ghost predicate OneCoordinator(s: System) {
    && (forall c, d :: c in s.coordinators && d in s.coordinators ==> c == d)
    && (s.gate.state == Draining ==> s.coordinators != map[])
    && (forall c :: c in s.coordinators ==> (s.gate.state == Draining <==> s.coordinators[c] != Closing))
    && (s.gate.waiters == [] || (|s.gate.waiters| == 1 && In(s, s.gate.waiters[0], Parked)))
  }

  ghost predicate DrainSafe(s: System) {
    && (forall c :: In(s, c, Observed) ==> NoneGranted(s))
    && (s.gate.state == ShutdownCommitted ==> NoneGranted(s))
  }

  /** A waiter that saw permits and has not been told otherwise will still be told. */
  ghost predicate WakeupOwed(s: System) {
    forall c :: c in s.coordinators && s.gate.activePermits == 0 ==>
      && (In(s, c, Awaiting) ==> s.gate.stored || NotificationPending(s))
      && (In(s, c, Parked) && c in s.gate.waiters ==> NotificationPending(s))
  }

  ghost predicate Inv(s: System) {
    CountExact(s) && OneCoordinator(s) && DrainSafe(s) && WakeupOwed(s)
  }

  lemma CountExactStep(s: System, step: Step, serialised: bool)
    requires CountExact(s) && Enabled(s, step, serialised)
    ensures CountExact(Next(s, step, serialised))
  {
    var s' := Next(s, step, serialised);
    match step
    case Arrive => TotalAppend(s.admissions, Checked, Held);
    case Count(t) => TotalUpdate(s.admissions, t, s'.admissions[t], Held);
    case Recheck(t) => TotalUpdate(s.admissions, t, s'.admissions[t], Held);
    case Release(t) => TotalUpdate(s.admissions, t, s'.admissions[t], Held);
    case Notify(t) => TotalUpdate(s.admissions, t, s'.admissions[t], Held);
    case _ =>
  }

  lemma OneCoordinatorStep(s: System, step: Step)
    requires OneCoordinator(s) && Enabled(s, step, true)
    ensures OneCoordinator(Next(s, step, true))
  {
    if step.GiveUp? && In(s, step.c, Parked) && step.c in s.gate.waiters {
      assert s.gate.waiters == [step.c];
      assert Without([step.c], step.c) == [];
    }
  }

  lemma ZeroMeansNoneGranted(s: System)
    requires CountExact(s) && s.gate.activePermits == 0
    ensures NoneGranted(s)
  {
    forall t | 0 <= t < |s.admissions| ensures s.admissions[t] != Granted {
      TotalCovers(s.admissions, t, Held);
    }
  }

  lemma DrainSafeStep(s: System, step: Step)
    requires CountExact(s) && OneCoordinator(s) && DrainSafe(s) && Enabled(s, step, true)
    ensures DrainSafe(Next(s, step, true))
  {
    var s' := Next(s, step, true);
    forall c | In(s', c, Observed) ensures NoneGranted(s') {
      if step == LoadPermits(c) {
        ZeroMeansNoneGranted(s);
      } else {
        assert In(s, c, Observed);
      }
    }
    if step.Commit? {
      assert In(s, step.c, Observed);
    }
  }

  /** Every step but the `notify_one` itself keeps the pending notifications pending. */
  lemma NotificationStays(s: System, step: Step)
    requires Enabled(s, step, true) && NotificationPending(s)
    ensures NotificationPending(Next(s, step, true)) || step.Notify?
  {
    var t :| 0 <= t < |s.admissions| && s.admissions[t] == Notifying;
    assert step.Notify? || Next(s, step, true).admissions[t] == Notifying;
  }

  lemma WakeupOwedStep(s: System, step: Step)
    requires CountExact(s) && OneCoordinator(s) && WakeupOwed(s) && Enabled(s, step, true)
    ensures WakeupOwed(Next(s, step, true))
  {
    var s' := Next(s, step, true);
    if NotificationPending(s) {
      NotificationStays(s, step);
    }
    if step.Release? && s'.gate.activePermits == 0 {
      assert s'.admissions[step.t] == Notifying;
    }
    if step.Count? {
      TotalUpdate(s.admissions, step.t, Counted, Held);
      CountExactStep(s, step, true);
      TotalCovers(s'.admissions, step.t, Held);
    }
  }

  lemma InvStep(s: System, step: Step)
    requires Inv(s) && Enabled(s, step, true)
    ensures Inv(Next(s, step, true))
  {
    CountExactStep(s, step, true);
    OneCoordinatorStep(s, step);
    DrainSafeStep(s, step);
    WakeupOwedStep(s, step);
  }

  lemma {:induction false} InvRun(s: System, run: seq<Step>)
    requires Inv(s) && IsRun(s, run, true)
    ensures Inv(Exec(s, run, true))
    decreases |run|
  {
    if run != [] {
      InvStep(s, run[0]);
      InvRun(Next(s, run[0], true), run[1..]);
    }
  }

  // ---------- the promises ----------

  ghost predicate Leads(s: System, last: System, serialised: bool) {
    exists run :: IsRun(s, run, serialised) && Exec(s, run, serialised) == last
  }

  ghost predicate Reachable(s: System) {
    Leads(Initial, s, true)
  }

  lemma ReachableInv(s: System)
    requires Reachable(s)
    ensures Inv(s)
  {
    var run :| IsRun(Initial, run, true) && Exec(Initial, run, true) == s;
    InvRun(Initial, run);
  }

  /** `active_permits` is exactly the number of admissions between their increment and their
      decrement; in particular it never underflows. */
  lemma PermitsCountAdmissions(s: System)
    requires Reachable(s)
    ensures s.gate.activePermits == Total(s.admissions, Held) >= 0
  {
    ReachableInv(s);
  }

  lemma {:induction false} CommittedStays(s: System, rest: seq<Step>)
    requires Inv(s) && s.gate.state == ShutdownCommitted && IsRun(s, rest, true)
    ensures Exec(s, rest, true).gate.state == ShutdownCommitted && NoneGranted(Exec(s, rest, true))
    decreases |rest|
  {
    if rest != [] {
      InvStep(s, rest[0]);
      CommittedStays(Next(s, rest[0], true), rest[1..]);
    }
  }

  /** Once the shutdown is committed no permit is outstanding, no continuation grants one,
      and no continuation leaves the committed state. */
  lemma {:induction false} CommittedShutdownIsFinal(s: System, rest: seq<Step>)
    requires Reachable(s) && s.gate.state == ShutdownCommitted && IsRun(s, rest, true)
    ensures NoneGranted(s)
    ensures Exec(s, rest, true).gate.state == ShutdownCommitted && NoneGranted(Exec(s, rest, true))
  {
    ReachableInv(s);
    CommittedStays(s, rest);
  }

  /** No lost wakeup: while the waiter is registered and the count is zero, a releaser
      stands between its `fetch_sub` and its `notify_one`. */
  lemma NoLostWakeup(s: System, c: nat)
    requires Reachable(s) && In(s, c, Parked) && c in s.gate.waiters && s.gate.activePermits == 0
    ensures NotificationPending(s)
  {
    ReachableInv(s);
  }

  /** The wait returns only on an observed zero: a coordinator that may commit owns a
      draining gate behind which nothing is granted, whatever the count says by now. */
  lemma ObservedMeansDrained(s: System, c: nat)
    requires Reachable(s) && In(s, c, Observed)
    ensures s.gate.state == Draining && NoneGranted(s)
    ensures Next(s, Commit(c), true).gate.state == ShutdownCommitted
  {
    ReachableInv(s);
  }

  /** A drain that was restored or committed deliberately has left `Draining` for good:
      the guard dropped afterwards changes nothing. */
  lemma GuardDropIsNoOp(s: System, c: nat)
    requires Reachable(s) && In(s, c, Closing)
    ensures Next(s, GuardDrop(c), true).gate == s.gate
  {
    ReachableInv(s);
  }

  /** A daemon never stays `Draining` without an owner whose guard will reopen it. */
  lemma DrainingHasOwner(s: System)
    requires Reachable(s) && s.gate.state == Draining
    ensures exists c :: c in s.coordinators && s.coordinators == map[c := s.coordinators[c]]
                        && s.coordinators[c] != Closing
  {
    ReachableInv(s);
    var c :| c in s.coordinators;
    assert s.coordinators == map[c := s.coordinators[c]];
  }

  // ---------- the drain finishes ----------

  /** Steps of the admissions and of the waiter itself; the others start or abandon a drain. */
  predicate Progress(step: Step) {
    step.Count? || step.Recheck? || step.Release? || step.Notify?
    || step.LoadPermits? || step.Poll? || step.Wake?
  }

  predicate OnlyProgress(run: seq<Step>) {
    forall i :: 0 <= i < |run| ==> Progress(run[i])
  }

  function AdmissionRank(a: Admission): nat {
    match a
    case Checked => 7
    case Counted => 6
    case BackingOut => 5
    case Granted => 5
    case Notifying => 4
    case Done => 0
  }

  function WaiterRank(s: System, c: nat): nat
    requires c in s.coordinators
  {
    match s.coordinators[c]
    case Checking => 2
    case Awaiting => 1
    case Parked => if c in s.gate.waiters then 0 else 3
    case _ => 0
  }

  function Rank(s: System, c: nat): nat
    requires c in s.coordinators
  {
    Total(s.admissions, AdmissionRank) + WaiterRank(s, c) + (if s.gate.stored then 2 else 0)
  }

  predicate Waiting(s: System, c: nat) {
    In(s, c, Checking) || In(s, c, Awaiting) || In(s, c, Parked)
  }

  lemma AdmissionProgress(s: System, t: nat, a: Admission)
    requires t < |s.admissions|
    ensures Total(s.admissions[t := a], AdmissionRank)
            == Total(s.admissions, AdmissionRank) - AdmissionRank(s.admissions[t]) + AdmissionRank(a)
  {
    TotalUpdate(s.admissions, t, a, AdmissionRank);
  }

  lemma CounterStepDecreases(s: System, c: nat, step: Step)
    requires c in s.coordinators && Enabled(s, step, true)
    requires step.Count? || step.Recheck? || step.Release?
    ensures Rank(Next(s, step, true), c) < Rank(s, c)
  {
    AdmissionProgress(s, step.t, Next(s, step, true).admissions[step.t]);
  }

  lemma NotifyStepDecreases(s: System, c: nat, step: Step)
    requires OneCoordinator(s) && c in s.coordinators && step.Notify? && Enabled(s, step, true)
    ensures Rank(Next(s, step, true), c) < Rank(s, c)
  {
    AdmissionProgress(s, step.t, Done);
  }

  lemma WaiterStepDecreases(s: System, c: nat, step: Step)
    requires OneCoordinator(s) && c in s.coordinators && Enabled(s, step, true)
    requires step.LoadPermits? || step.Poll? || step.Wake?
    ensures Rank(Next(s, step, true), c) < Rank(s, c)
  {
  }

  lemma ProgressDecreases(s: System, c: nat, step: Step)
    requires OneCoordinator(s) && (Waiting(s, c) || In(s, c, Observed))
    requires Progress(step) && Enabled(s, step, true)
    ensures var s' := Next(s, step, true);
            (Waiting(s', c) || In(s', c, Observed)) && Rank(s', c) < Rank(s, c)
  {
    if step.Notify? {
      NotifyStepDecreases(s, c, step);
    } else if step.Count? || step.Recheck? || step.Release? {
      CounterStepDecreases(s, c, step);
    } else {
      WaiterStepDecreases(s, c, step);
    }
  }

  /** While the count is positive, some admission can take its next step. */
  lemma PermitHolderCanMove(s: System) returns (step: Step)
    requires CountExact(s) && s.gate.activePermits > 0
    ensures Progress(step) && Enabled(s, step, true)
  {
    var t := TotalWitness(s.admissions, Held);
    step := if s.admissions[t] == Counted then Recheck(t) else Release(t);
  }

  /** A waiting drain is never stuck: either some admission or the waiter can step. */
  lemma WaiterNeverStuck(s: System, c: nat) returns (step: Step)
    requires Inv(s) && Waiting(s, c)
    ensures Progress(step) && Enabled(s, step, true)
  {
    if In(s, c, Checking) {
      step := LoadPermits(c);
    } else if In(s, c, Awaiting) {
      step := Poll(c);
    } else if c !in s.gate.waiters {
      step := Wake(c);
    } else if s.gate.activePermits == 0 {
      var t :| 0 <= t < |s.admissions| && s.admissions[t] == Notifying;
      step := Notify(t);
    } else {
      step := PermitHolderCanMove(s);
    }
  }

  lemma {:induction false} ProgressRun(s: System, c: nat, run: seq<Step>) returns (last: System)
    requires Inv(s) && (Waiting(s, c) || In(s, c, Observed)) && IsRun(s, run, true) && OnlyProgress(run)
    ensures last == Exec(s, run, true) && Inv(last) && (Waiting(last, c) || In(last, c, Observed))
    ensures |run| + Rank(last, c) <= Rank(s, c)
    decreases |run|
  {
    if run == [] {
      last := s;
    } else {
      assert Progress(run[0]);
      InvStep(s, run[0]);
      ProgressDecreases(s, c, run[0]);
      assert forall i :: 0 <= i < |run[1..]| ==> run[1..][i] == run[i + 1];
      last := ProgressRun(Next(s, run[0], true), c, run[1..]);
    }
  }

  /** The drain terminates. From any reachable state with a waiting drain, as long as no drain
      is begun, abandoned or finished, at most `Rank` further steps are possible in any order;
      and when none is possible any more the waiter has observed zero. */
  lemma DrainTerminates(s: System, c: nat, run: seq<Step>)
    requires Reachable(s) && Waiting(s, c) && IsRun(s, run, true) && OnlyProgress(run)
    ensures |run| <= Rank(s, c)
    ensures (forall step :: Progress(step) ==> !Enabled(Exec(s, run, true), step, true))
            ==> In(Exec(s, run, true), c, Observed)
  {
    ReachableInv(s);
    var last := ProgressRun(s, c, run);
    if Waiting(last, c) {
      var step := WaiterNeverStuck(last, c);
    }
  }

  // ---------- why the coordinators must be serialised ----------

  lemma LeadsBy(s: System, step: Step, last: System, serialised: bool)
    requires Enabled(s, step, serialised) && Leads(Next(s, step, serialised), last, serialised)
    ensures Leads(s, last, serialised)
  {
    var rest :| IsRun(Next(s, step, serialised), rest, serialised)
        && Exec(Next(s, step, serialised), rest, serialised) == last;
    var run := [step] + rest;
    assert run[0] == step && run[1..] == rest;
    assert IsRun(s, run, serialised) && Exec(s, run, serialised) == last;
  }

  const Race0 := System(Gate(Draining, 0, false, []), [], map[1 := Closing, 0 := Observed])
  const Race1 := System(Gate(Active, 1, false, []), [Granted], map[0 := Observed])
  const Race2 := System(Gate(ShutdownCommitted, 1, false, []), [Granted], map[0 := Closing, 2 := Preparing])

  lemma RaceEnds()
    ensures Leads(Race1, Race2, false)
  {
    var a := Next(Race1, Begin(2), false);
    var b := Next(a, Commit(0), false);
    assert b == Race2;
    assert IsRun(b, [], false) && Exec(b, [], false) == Race2;
    LeadsBy(a, Commit(0), Race2, false);
    LeadsBy(Race1, Begin(2), Race2, false);
  }

  const RaceOpen := System(Gate(Active, 0, false, []), [Checked], map[0 := Observed])
  const RaceCancelled := System(Gate(Active, 0, false, []), [], map[1 := Closing])

  lemma RaceGrants()
    ensures Leads(RaceOpen, Race2, false)
  {
    RaceEnds();
    var a := Next(RaceOpen, Count(0), false);
    assert Next(a, Recheck(0), false) == Race1;
    LeadsBy(a, Recheck(0), Race2, false);
    LeadsBy(RaceOpen, Count(0), Race2, false);
  }

  lemma RaceReopens()
    ensures Leads(Race0, Race2, false)
  {
    RaceGrants();
    var a := Next(Race0, GuardDrop(1), false);
    assert Next(a, Arrive, false) == RaceOpen;
    LeadsBy(a, Arrive, Race2, false);
    LeadsBy(Race0, GuardDrop(1), Race2, false);
  }

  lemma RaceDrains()
    ensures Leads(RaceCancelled, Race2, false)
  {
    RaceReopens();
    var d := Next(RaceCancelled, Begin(0), false);
    var e := Next(d, StartWait(0), false);
    assert Next(e, LoadPermits(0), false) == Race0;
    LeadsBy(e, LoadPermits(0), Race2, false);
    LeadsBy(d, StartWait(0), Race2, false);
    LeadsBy(RaceCancelled, Begin(0), Race2, false);
  }

  /** Without `lifecycle_control` the gate alone is not enough. Coordinator 1 cancels but its
      guard is still to drop; coordinator 0 drains and observes zero; the guard of 1 reopens
      the gate and an admission is granted; coordinator 2 closes the gate again and the commit
      of 0, based on its old observation, succeeds over the granted permit. */
  lemma UnserialisedDrainsAreUnsafe()
    ensures exists s :: Leads(Initial, s, false) && s.gate.state == ShutdownCommitted && !NoneGranted(s)
  {
    RaceDrains();
    var a := Next(Initial, Begin(1), false);
    assert Next(a, Cancel(1), false) == RaceCancelled;
    LeadsBy(a, Cancel(1), Race2, false);
    LeadsBy(Initial, Begin(1), Race2, false);
    assert Race2.admissions[0] == Granted;
  }

  // ---------- the object itself ----------

  /** `release_permit`: the decrement, and the notification when it was the last permit. */
  function Released(g: Gate): Gate {
    var less := FetchAdd(g, -1);
    if g.activePermits == 1 then NotifyOne(less) else less
  }

  /** One atomic operation of somebody else on the cells. */
  datatype Other =
    | Swap(expected: AdmissionState, next: AdmissionState)
    | Add(delta: int)
    | NotifyOther
    | PollOther(waiter: nat)
    | DropOther(waiter: nat)

  function Effect(g: Gate, o: Other): Gate {
    match o
    case Swap(expected, next) => CompareExchange(g, expected, next)
    case Add(delta) => FetchAdd(g, delta)
    case NotifyOther => NotifyOne(g)
    case PollOther(waiter) => PollNotified(g, waiter)
    case DropOther(waiter) => DropNotified(g, waiter)
  }

  function Effects(g: Gate, others: seq<Other>): Gate {
    if others == [] then g else Effect(Effects(g, others[..|others| - 1]), others[|others| - 1])
  }

  /** Every step of the system changes the cells by at most one such operation. */
  lemma StepsHaveEffects(s: System, step: Step, serialised: bool) returns (others: seq<Other>)
    requires Enabled(s, step, serialised)
    ensures |others| <= 1 && Next(s, step, serialised).gate == Effects(s.gate, others)
  {
    match step
    case Count(_) => others := [Add(1)];
    case Release(_) => others := [Add(-1)];
    case Notify(_) => others := [NotifyOther];
    case Begin(_) => others := [Swap(Active, Draining)];
    case Poll(c) => others := [PollOther(c)];
    case GiveUp(c) => others := if In(s, c, Parked) then [DropOther(c)] else [];
    case Cancel(_) => others := [Swap(Draining, Active)];
    case Commit(_) => others := [Swap(Draining, ShutdownCommitted)];
    case GuardDrop(_) => others := [Swap(Draining, Active)];
    case _ => others := [];
  }

  /** The source's object. Each method is tied to the operations the steps above are
      made of; `TryAdmit` and `ReleasePermit` are the source's sequences of them. */
  class LifecycleAdmission {
    var state: AdmissionState
    var activePermits: int
    var stored: bool
    var waiters: seq<nat>

    ghost function View(): Gate
      reads this
    {
      Gate(state, activePermits, stored, waiters)
    }

    constructor ()
      ensures View() == NewGate
    {
      state, activePermits, stored, waiters := Active, 0, false, [];
    }

    method AddPermits(delta: int) returns (previous: int)
      modifies this
      ensures previous == old(activePermits)
      ensures View() == FetchAdd(old(View()), delta)
    {
      previous := activePermits;
      activePermits := activePermits + delta;
    }

    method SwapState(expected: AdmissionState, next: AdmissionState) returns (won: bool)
      modifies this
      ensures won == (old(state) == expected)
      ensures View() == CompareExchange(old(View()), expected, next)
    {
      won := state == expected;
      if won {
        state := next;
      }
    }

    method BeginDraining() returns (won: bool)
      modifies this
      ensures won == (old(state) == Active)
      ensures View() == CompareExchange(old(View()), Active, Draining)
    {
      won := SwapState(Active, Draining);
    }

    method CommitShutdown() returns (won: bool)
      modifies this
      ensures won == (old(state) == Draining)
      ensures View() == CompareExchange(old(View()), Draining, ShutdownCommitted)
    {
      won := SwapState(Draining, ShutdownCommitted);
    }

    method CancelDraining() returns (won: bool)
      modifies this
      ensures won == (old(state) == Draining)
      ensures View() == CompareExchange(old(View()), Draining, Active)
    {
      won := SwapState(Draining, Active);
    }

    method NotifyWaiter()
      modifies this
      ensures View() == NotifyOne(old(View()))
    {
      if waiters == [] {
        stored := true;
      } else {
        waiters := waiters[1..];
      }
    }

    /** One turn of the loop of `wait_for_drain`: done, or polled once. */
    method PollWaiter(waiter: nat) returns (drained: bool)
      modifies this
      ensures drained == (old(activePermits) == 0)
      ensures View() == if drained then old(View()) else PollNotified(old(View()), waiter)
    {
      drained := activePermits == 0;
      if !drained {
        if stored {
          stored := false;
        } else {
          waiters := waiters + [waiter];
        }
      }
    }

    method ReleasePermit()
      modifies this
      ensures View() == Released(old(View()))
    {
      var previous := AddPermits(-1);
      if previous == 1 {
        NotifyWaiter();
      }
    }

    method RunOthers(others: seq<Other>)
      modifies this
      ensures View() == Effects(old(View()), others)
    {
      assert others[..0] == [];
      for k := 0 to |others|
        invariant View() == Effects(old(View()), others[..k])
      {
        assert others[..k + 1][..k] == others[..k] && others[..k + 1][k] == others[k];
        match others[k] {
          case Swap(expected, next) => var _ := SwapState(expected, next);
          case Add(delta) => var _ := AddPermits(delta);
          case NotifyOther => NotifyWaiter();
          case PollOther(waiter) =>
            if stored {
              stored := false;
            } else {
              waiters := waiters + [waiter];
            }
          case DropOther(waiter) =>
            if waiter in waiters {
              waiters := Without(waiters, waiter);
            } else {
              NotifyWaiter();
            }
        }
      }
      assert others[..|others|] == others;
    }

    /** Whatever the others do between the first check and the increment (`before`), and between the
        increment and the re-check (`between`): the permit is granted exactly when the gate is open at
        both checks, and a refusal after the increment gives its count back, with the notification a
        waiting drain may need. */
    method TryAdmit(before: seq<Other>, between: seq<Other>) returns (granted: bool)
      modifies this
      ensures var seen := Effects(FetchAdd(Effects(old(View()), before), 1), between);
              && granted == (old(state) == Active && seen.state == Active)
              && View() == if old(state) != Active then old(View()) else if granted then seen else Released(seen)
    {
      if state != Active {
        return false;
      }
      RunOthers(before);
      var _ := AddPermits(1);
      RunOthers(between);
      if state != Active {
        ReleasePermit();
        return false;
      }
      granted := true;
    }
  }
}
