/** The lifecycle intents of Telegram threads: which threads of which bridge generation are active,
    archived or deleted.

    Every operation first touches the atomic latest generation and only then takes the lock on
    the intents, so it is two steps with an arbitrary number of other steps in between. */
module ThreadLifecycle {
  import opened Wrappers

  datatype ThreadState = Active | Archived | Deleted

  datatype Intent = Intent(generation: nat, revision: nat, state: ThreadState)

  /** The two atomics and the locked map. */
  datatype Store = Store(latest: nat, nextRevision: nat, intents: map<string, Intent>)

  // ---------- the two halves of each operation ----------

  function FetchMax(s: Store, generation: nat): Store {
    s.(latest := if s.latest < generation then generation else s.latest)
  }

  /** `retain` of the intents that are not older than a generation. */
  function Prune(intents: map<string, Intent>, generation: nat): map<string, Intent> {
    map thread | thread in intents && intents[thread].generation >= generation :: intents[thread]
  }

  function Pruned(s: Store, generation: nat, previous: nat): Store {
    if generation > previous then s.(intents := Prune(s.intents, generation)) else s
  }

  function StartedLocked(s: Store, thread: string, generation: nat, previous: nat): (Store, bool) {
    var p := Pruned(s, generation, previous);
    if thread in p.intents && p.intents[thread].generation > generation then (p, false)
    else if thread in p.intents && p.intents[thread].generation == generation then
      (p, p.intents[thread].state == Active)
    else (p.(intents := p.intents[thread := Intent(generation, 0, Active)]), true)
  }

  /** The revision of `thread` in `generation`; 0 when nothing was committed for that pair. */
  function RevisionOf(intents: map<string, Intent>, thread: string, generation: nat): nat {
    if thread in intents && intents[thread].generation == generation then intents[thread].revision else 0
  }

  function ObserveLocked(s: Store, thread: string, generation: nat, previous: nat,
                         expected: Option<nat>, next: ThreadState): (Store, Option<bool>) {
    var p := Pruned(s, generation, previous);
    if thread in p.intents && p.intents[thread].generation > generation then (p, None)
    else if expected.Some? && expected.value != RevisionOf(p.intents, thread, generation) then (p, None)
    else if thread in p.intents && p.intents[thread].generation == generation
            && p.intents[thread].state == Deleted && next != Deleted then (p, None)
    else
      (p.(nextRevision := p.nextRevision + 1,
          intents := p.intents[thread := Intent(generation, p.nextRevision, next)]),
       Some(next == Active))
  }

  function RevisionLocked(s: Store, thread: string, generation: nat): Option<nat> {
    if thread in s.intents && s.intents[thread].generation > generation then None
    else Some(RevisionOf(s.intents, thread, generation))
  }

  function AllowsLocked(s: Store, thread: string, generation: nat): bool {
    thread !in s.intents
    || s.intents[thread].generation < generation
    || (s.intents[thread].generation == generation && s.intents[thread].state == Active)
  }

  // ---------- the interleaved system ----------

  /** An operation that has passed its generation check and is waiting for the lock. `previous` is
      what its `fetch_max` returned. */
  datatype Operation =
    | Started(thread: string, generation: nat, previous: nat)
    | Observe(thread: string, generation: nat, previous: nat, expected: Option<nat>, next: ThreadState)
    | ReadRevision(thread: string, generation: nat)
    | Allows(thread: string, generation: nat)
  {
    /** An operation that raised the latest generation and may change the intents. */
    predicate Writes() {
      Started? || Observe?
    }
  }

  /** A lifecycle state that was committed. */
  datatype Commit = Commit(thread: string, generation: nat, revision: nat, state: ThreadState)

  /** `waiting` holds every operation that ever got past its check; `None` once it has finished.
      `commits` records the committed lifecycle states in order. */
  datatype System = System(store: Store, waiting: seq<Option<Operation>>, commits: seq<Commit>)

  const Initial := System(Store(0, 1, map[]), [], [])

  /** `Call` is the first half of an operation, `Lock(i)` the second half of the i-th one. */
  datatype Step =
    | CallStarted(thread: string, generation: nat)
    | CallObserve(thread: string, generation: nat, expected: Option<nat>, next: ThreadState)
    | CallRevision(thread: string, generation: nat)
    | CallAllows(thread: string, generation: nat)
    | Lock(i: nat)

  predicate Enabled(s: System, step: Step) {
    step.Lock? ==> step.i < |s.waiting| && s.waiting[step.i].Some?
  }

  function Waits(s: System, op: Operation): System {
    s.(waiting := s.waiting + [Some(op)])
  }

  function Finish(s: System, i: nat, store: Store): System
    requires i < |s.waiting|
  {
    s.(store := store, waiting := s.waiting[i := None])
  }

  function Next(s: System, step: Step): System
    requires Enabled(s, step)
  {
    match step
    case CallStarted(thread, g) =>
      var s' := s.(store := FetchMax(s.store, g));
      if g < s.store.latest then s' else Waits(s', Started(thread, g, s.store.latest))
    case CallObserve(thread, g, expected, next) =>
      var s' := s.(store := FetchMax(s.store, g));
      if g < s.store.latest then s' else Waits(s', Observe(thread, g, s.store.latest, expected, next))
    case CallRevision(thread, g) =>
      if g < s.store.latest then s else Waits(s, ReadRevision(thread, g))
    case CallAllows(thread, g) =>
      if g < s.store.latest then s else Waits(s, Allows(thread, g))
    case Lock(i) =>
      match s.waiting[i].value
      case Started(thread, g, previous) => Finish(s, i, StartedLocked(s.store, thread, g, previous).0)
      case Observe(thread, g, previous, expected, next) =>
        var (store, result) := ObserveLocked(s.store, thread, g, previous, expected, next);
        if result.Some? then
          Finish(s, i, store).(commits := s.commits + [Commit(thread, g, s.store.nextRevision, next)])
        else
          Finish(s, i, store)
      case ReadRevision(_, _) => Finish(s, i, s.store)
      case Allows(_, _) => Finish(s, i, s.store)
  }

  predicate IsRun(s: System, run: seq<Step>)
    decreases |run|
  {
    run == [] || (Enabled(s, run[0]) && IsRun(Next(s, run[0]), run[1..]))
  }

  function Exec(s: System, run: seq<Step>): System
    requires IsRun(s, run)
    decreases |run|
  {
    if run == [] then s else Exec(Next(s, run[0]), run[1..])
  }

  ghost predicate Leads(s: System, s': System) {
    exists run :: IsRun(s, run) && Exec(s, run) == s'
  }

  ghost predicate Reachable(s: System) {
    Leads(Initial, s)
  }

  // ---------- the invariant ----------

  ghost predicate GenerationsInv(s: System) {
    && (forall thread :: thread in s.store.intents ==> s.store.intents[thread].generation <= s.store.latest)
    && (forall i :: 0 <= i < |s.waiting| && s.waiting[i].Some? && s.waiting[i].value.Writes()
          ==> s.waiting[i].value.previous <= s.waiting[i].value.generation <= s.store.latest)
    && (forall i :: 0 <= i < |s.commits| ==> s.commits[i].generation <= s.store.latest)
  }

  /** Revisions are handed out once, in increasing order, from 1. */
  ghost predicate RevisionsInv(s: System) {
    && s.store.nextRevision >= 1
    && (forall i :: 0 <= i < |s.commits| ==> 1 <= s.commits[i].revision < s.store.nextRevision)
    && (forall i, j :: 0 <= i < j < |s.commits| ==> s.commits[i].revision < s.commits[j].revision)
  }

  /** The revision last committed for a pair; 0 when there is none. */
  function LastRevision(commits: seq<Commit>, thread: string, generation: nat): nat {
    if commits == [] then 0
    else
      var c := commits[|commits| - 1];
      if c.thread == thread && c.generation == generation then c.revision
      else LastRevision(commits[..|commits| - 1], thread, generation)
  }

  predicate Tombstoned(commits: seq<Commit>, thread: string, generation: nat) {
    exists i :: 0 <= i < |commits| && commits[i].thread == thread && commits[i].generation == generation
                && commits[i].state == Deleted
  }

  /** While a generation is the latest, the map knows the last committed revision of each of its
      threads and every tombstone. */
  ghost predicate CurrentInv(s: System, thread: string) {
    var g := s.store.latest;
    && RevisionOf(s.store.intents, thread, g) == LastRevision(s.commits, thread, g)
    && (Tombstoned(s.commits, thread, g) <==>
          && thread in s.store.intents && s.store.intents[thread].generation == g
          && s.store.intents[thread].state == Deleted)
  }

  ghost predicate Inv(s: System) {
    GenerationsInv(s) && RevisionsInv(s) && forall thread :: CurrentInv(s, thread)
  }

  lemma GenerationsInvStep(s: System, step: Step)
    requires GenerationsInv(s) && Enabled(s, step)
    ensures GenerationsInv(Next(s, step))
  {
  }

  lemma RevisionsInvStep(s: System, step: Step)
    requires RevisionsInv(s) && Enabled(s, step)
    ensures RevisionsInv(Next(s, step))
  {
  }

  lemma LastRevisionAppend(commits: seq<Commit>, c: Commit, thread: string, generation: nat)
    ensures LastRevision(commits + [c], thread, generation)
            == if c.thread == thread && c.generation == generation then c.revision
               else LastRevision(commits, thread, generation)
  {
    assert (commits + [c])[..|commits|] == commits;
  }

  lemma TombstonedAppend(commits: seq<Commit>, c: Commit, thread: string, generation: nat)
    ensures Tombstoned(commits + [c], thread, generation)
            <==> Tombstoned(commits, thread, generation)
                 || (c.thread == thread && c.generation == generation && c.state == Deleted)
  {
    if Tombstoned(commits, thread, generation) {
      var i :| 0 <= i < |commits| && commits[i].thread == thread && commits[i].generation == generation
               && commits[i].state == Deleted;
      assert (commits + [c])[i] == commits[i];
    }
    assert (commits + [c])[|commits|] == c;
  }

  /** Nothing is known of a generation before it is announced. */
  lemma {:induction false} NothingBeyond(commits: seq<Commit>, latest: nat, thread: string, generation: nat)
    requires forall i :: 0 <= i < |commits| ==> commits[i].generation <= latest
    requires generation > latest
    ensures LastRevision(commits, thread, generation) == 0 && !Tombstoned(commits, thread, generation)
  {
    if commits != [] {
      NothingBeyond(commits[..|commits| - 1], latest, thread, generation);
    }
  }

  lemma CallKeepsCurrent(s: System, step: Step, thread: string)
    requires GenerationsInv(s) && CurrentInv(s, thread) && Enabled(s, step) && !step.Lock?
    ensures CurrentInv(Next(s, step), thread)
  {
    var g := Next(s, step).store.latest;
    if g > s.store.latest {
      NothingBeyond(s.commits, s.store.latest, thread, g);
    }
  }

  lemma LockKeepsCurrent(s: System, i: nat, thread: string)
    requires GenerationsInv(s) && CurrentInv(s, thread) && Enabled(s, Lock(i))
    ensures CurrentInv(Next(s, Lock(i)), thread)
  {
    var s' := Next(s, Lock(i));
    var op := s.waiting[i].value;
    if op.Observe? && s'.commits != s.commits {
      var c := Commit(op.thread, op.generation, s.store.nextRevision, op.next);
      LastRevisionAppend(s.commits, c, thread, s.store.latest);
      TombstonedAppend(s.commits, c, thread, s.store.latest);
    }
  }

  /** What only grows along a run. */
  ghost predicate Later(s: System, s': System) {
    && s.store.latest <= s'.store.latest
    && s.store.nextRevision <= s'.store.nextRevision
    && s.commits <= s'.commits
    && forall k :: |s.commits| <= k < |s'.commits| ==> s'.commits[k].revision >= s.store.nextRevision
  }

  lemma InvStep(s: System, step: Step)
    requires Inv(s) && Enabled(s, step)
    ensures Inv(Next(s, step)) && Later(s, Next(s, step))
  {
    GenerationsInvStep(s, step);
    RevisionsInvStep(s, step);
    forall thread ensures CurrentInv(Next(s, step), thread) {
      assert CurrentInv(s, thread);
      match step
      case Lock(i) => LockKeepsCurrent(s, i, thread);
      case _ => CallKeepsCurrent(s, step, thread);
    }
  }

  lemma {:induction false} InvRun(s: System, run: seq<Step>)
    requires Inv(s) && IsRun(s, run)
    ensures Inv(Exec(s, run)) && Later(s, Exec(s, run))
    decreases |run|
  {
    if run != [] {
      InvStep(s, run[0]);
      InvRun(Next(s, run[0]), run[1..]);
    }
  }

  lemma ReachableInv(s: System)
    requires Reachable(s)
    ensures Inv(s)
  {
    var run :| IsRun(Initial, run) && Exec(Initial, run) == s;
    InvRun(Initial, run);
  }

  // ---------- the promises ----------

  /** No stored intent belongs to a generation that was never announced. */
  lemma IntentsNeverAhead(s: System, thread: string)
    requires Reachable(s) && thread in s.store.intents
    ensures s.store.intents[thread].generation <= s.store.latest
  {
    ReachableInv(s);
  }

  /** What refuses the binding of a deleted thread for good: the tombstone itself, or an intent of a newer
      generation in its place. */
  predicate Kept(s: Store, thread: string, generation: nat) {
    && thread in s.intents
    && (s.intents[thread].generation > generation
        || (s.intents[thread].generation == generation && s.intents[thread].state == Deleted))
  }

  /** The one step that loses what is kept: an operation that raised the latest generation itself takes the
      lock, prunes the thread's older intent and writes no intent for the thread. */
  predicate Drops(s: System, step: Step, thread: string)
    requires Enabled(s, step)
  {
    && step.Lock? && s.waiting[step.i].value.Writes()
    && var op := s.waiting[step.i].value;
       && op.generation > op.previous
       && thread in s.store.intents && s.store.intents[thread].generation < op.generation
       && (op.thread != thread || (op.Observe? && op.expected.Some? && op.expected.value != 0))
  }

  predicate NeverDrops(s: System, run: seq<Step>, thread: string)
    requires IsRun(s, run)
    decreases |run|
  {
    run == [] || (!Drops(s, run[0], thread) && NeverDrops(Next(s, run[0]), run[1..], thread))
  }

  /** The binding question is refused before, during and after the run. */
  predicate AlwaysRefused(s: System, run: seq<Step>, thread: string, generation: nat)
    requires IsRun(s, run)
    decreases |run|
  {
    && !AllowsLocked(s.store, thread, generation)
    && (run == [] || AlwaysRefused(Next(s, run[0]), run[1..], thread, generation))
  }

  /** One step keeps the refusal exactly when it does not drop it; when it does, the answer turns to yes. */
  lemma KeptStep(s: System, step: Step, thread: string, generation: nat)
    requires GenerationsInv(s) && Enabled(s, step) && Kept(s.store, thread, generation)
    ensures Kept(Next(s, step).store, thread, generation) <==> !Drops(s, step, thread)
    ensures AllowsLocked(Next(s, step).store, thread, generation) <==> Drops(s, step, thread)
  {
  }

  lemma {:induction false} RefusedExactly(s: System, run: seq<Step>, thread: string, generation: nat)
    requires Inv(s) && IsRun(s, run) && Kept(s.store, thread, generation)
    ensures AlwaysRefused(s, run, thread, generation) <==> NeverDrops(s, run, thread)
    ensures NeverDrops(s, run, thread) ==> Kept(Exec(s, run).store, thread, generation)
    decreases |run|
  {
    if run != [] {
      KeptStep(s, run[0], thread, generation);
      InvStep(s, run[0]);
      if !Drops(s, run[0], thread) {
        RefusedExactly(Next(s, run[0]), run[1..], thread, generation);
      }
    }
  }

  /** A deletion lasts, exactly: from the step that commits it on, the binding question for the pair is
      refused at every moment of a run if and only if no step of the run drops the tombstone. */
  lemma DeletionLastsExactly(s: System, i: nat, run: seq<Step>)
    requires Reachable(s) && Enabled(s, Lock(i)) && s.waiting[i].value.Observe? && s.waiting[i].value.next == Deleted
    requires Next(s, Lock(i)).commits != s.commits && IsRun(Next(s, Lock(i)), run)
    ensures var op := s.waiting[i].value;
            AlwaysRefused(Next(s, Lock(i)), run, op.thread, op.generation)
            <==> NeverDrops(Next(s, Lock(i)), run, op.thread)
  {
    var op := s.waiting[i].value;
    ReachableInv(s);
    InvStep(s, Lock(i));
    RefusedExactly(Next(s, Lock(i)), run, op.thread, op.generation);
  }

  /** No operation of a generation above `generation` takes the lock. */
  predicate NotSuperseded(s: System, run: seq<Step>, generation: nat)
    requires IsRun(s, run)
    decreases |run|
  {
    run == []
    || (&& (run[0].Lock? && s.waiting[run[0].i].value.Writes()
            ==> s.waiting[run[0].i].value.generation <= generation)
        && NotSuperseded(Next(s, run[0]), run[1..], generation))
  }

  /** Raising the latest generation alone does not end the protection: it lasts until an operation of a
      newer generation takes the lock. */
  lemma {:induction false} TombstoneHoldsUntilSuperseded(s: System, run: seq<Step>, thread: string, generation: nat)
    requires Inv(s) && IsRun(s, run) && Kept(s.store, thread, generation) && NotSuperseded(s, run, generation)
    ensures NeverDrops(s, run, thread) && AlwaysRefused(s, run, thread, generation)
    ensures Kept(Exec(s, run).store, thread, generation)
    decreases |run|
  {
    if run != [] {
      KeptStep(s, run[0], thread, generation);
      InvStep(s, run[0]);
      TombstoneHoldsUntilSuperseded(Next(s, run[0]), run[1..], thread, generation);
    }
  }

  /** While the latest generation stays at `generation`, no operation of a newer one is there to take the lock. */
  lemma {:induction false} LatestNotSuperseded(s: System, run: seq<Step>, generation: nat)
    requires Inv(s) && IsRun(s, run) && Exec(s, run).store.latest <= generation
    ensures NotSuperseded(s, run, generation)
    decreases |run|
  {
    if run != [] {
      InvStep(s, run[0]);
      InvRun(Next(s, run[0]), run[1..]);
      LatestNotSuperseded(Next(s, run[0]), run[1..], generation);
    }
  }

  /** In particular, once Deleted is committed for a thread and generation, no later answer of
      `telegram_thread_allows_topic_binding` for that pair is yes while the generation is still
      the latest one at the moment of the answer. */
  lemma TombstoneForbidsBinding(s: System, s': System, i: nat)
    requires Reachable(s) && Leads(s, s')
    requires Enabled(s', Lock(i)) && s'.waiting[i].value.Allows?
    requires Tombstoned(s.commits, s'.waiting[i].value.thread, s'.waiting[i].value.generation)
    requires s'.store.latest == s'.waiting[i].value.generation
    ensures !AllowsLocked(s'.store, s'.waiting[i].value.thread, s'.waiting[i].value.generation)
  {
    ReachableInv(s);
    var run :| IsRun(s, run) && Exec(s, run) == s';
    InvRun(s, run);
    var thread, g := s'.waiting[i].value.thread, s'.waiting[i].value.generation;
    assert s.store.latest == g && CurrentInv(s, thread);
    LatestNotSuperseded(s, run, g);
    TombstoneHoldsUntilSuperseded(s, run, thread, g);
  }

  /** A start never revives: while the generation is the latest and a lifecycle state was committed for
      the thread in it, a start leaves that state as it is and only reports whether it is Active. */
  lemma StartNeverRevives(s: System, i: nat)
    requires Reachable(s) && Enabled(s, Lock(i)) && s.waiting[i].value.Started?
    requires s.store.latest == s.waiting[i].value.generation
    requires LastRevision(s.commits, s.waiting[i].value.thread, s.waiting[i].value.generation) != 0
    ensures var op := s.waiting[i].value;
            var (after, active) := StartedLocked(s.store, op.thread, op.generation, op.previous);
            && op.thread in s.store.intents && op.thread in after.intents
            && after.intents[op.thread] == s.store.intents[op.thread]
            && active == (s.store.intents[op.thread].state == Active)
  {
    ReachableInv(s);
    assert CurrentInv(s, s.waiting[i].value.thread);
  }

  /** Committed revisions are distinct and grow with every commit. */
  lemma RevisionsIncrease(s: System, i: nat, j: nat)
    requires Reachable(s) && i < j < |s.commits|
    ensures 0 < s.commits[i].revision < s.commits[j].revision
  {
    ReachableInv(s);
  }

  ghost predicate CommittedSince(s: System, s': System, thread: string, generation: nat) {
    exists k :: |s.commits| <= k < |s'.commits|
                && s'.commits[k].thread == thread && s'.commits[k].generation == generation
  }

  lemma {:induction false} LastRevisionBounds(commits: seq<Commit>, thread: string, generation: nat, k: nat, low: nat)
    requires forall i, j :: 0 <= i < j < |commits| ==> commits[i].revision < commits[j].revision
    requires k < |commits| && commits[k].thread == thread && commits[k].generation == generation
             && low < commits[k].revision
    ensures LastRevision(commits, thread, generation) > low
  {
    var n := |commits| - 1;
    if !(commits[n].thread == thread && commits[n].generation == generation) {
      LastRevisionBounds(commits[..n], thread, generation, k, low);
    }
  }

  lemma {:induction false} LastRevisionBelow(commits: seq<Commit>, thread: string, generation: nat, bound: nat)
    requires forall i :: 0 <= i < |commits| ==> commits[i].revision < bound
    requires bound > 0
    ensures LastRevision(commits, thread, generation) < bound
  {
    if commits != [] {
      LastRevisionBelow(commits[..|commits| - 1], thread, generation, bound);
    }
  }

  lemma {:induction false} LastRevisionUnchanged(commits: seq<Commit>, n: nat, thread: string, generation: nat)
    requires n <= |commits|
    requires forall k :: n <= k < |commits| ==> !(commits[k].thread == thread && commits[k].generation == generation)
    ensures LastRevision(commits, thread, generation) == LastRevision(commits[..n], thread, generation)
  {
    if n < |commits| {
      LastRevisionUnchanged(commits[..|commits| - 1], n, thread, generation);
      assert commits[..|commits| - 1][..n] == commits[..n];
    } else {
      assert commits[..n] == commits;
    }
  }

  /** A revision that was read is the last committed one, unless the generation is superseded. */
  lemma ReadRevisionIsLast(s: System, thread: string, generation: nat)
    requires Inv(s) && s.store.latest <= generation
    ensures RevisionLocked(s.store, thread, generation) == Some(LastRevision(s.commits, thread, generation))
    ensures LastRevision(s.commits, thread, generation) < s.store.nextRevision
  {
    assert CurrentInv(s, thread);
    LastRevisionBelow(s.commits, thread, generation, s.store.nextRevision);
    if s.store.latest < generation {
      NothingBeyond(s.commits, s.store.latest, thread, generation);
    }
  }

  lemma LastRevisionTracksCommits(s: System, s': System, thread: string, generation: nat)
    requires Inv(s) && Inv(s') && Later(s, s')
    ensures LastRevision(s.commits, thread, generation) == LastRevision(s'.commits, thread, generation)
            <==> !CommittedSince(s, s', thread, generation)
  {
    LastRevisionBelow(s.commits, thread, generation, s.store.nextRevision);
    assert s'.commits[..|s.commits|] == s.commits;
    if CommittedSince(s, s', thread, generation) {
      var k :| |s.commits| <= k < |s'.commits| && s'.commits[k].thread == thread
          && s'.commits[k].generation == generation;
      LastRevisionBounds(s'.commits, thread, generation, k, s.store.nextRevision - 1);
    } else {
      LastRevisionUnchanged(s'.commits, |s.commits|, thread, generation);
    }
  }

  /** Pruning by a generation keeps what is known of that generation and of later ones. */
  lemma PruneKeeps(s: Store, generation: nat, previous: nat, thread: string)
    requires thread in s.intents ==> s.intents[thread].generation <= generation
    ensures var p := Pruned(s, generation, previous);
            && RevisionOf(p.intents, thread, generation) == RevisionOf(s.intents, thread, generation)
            && (thread in p.intents ==> thread in s.intents && p.intents[thread] == s.intents[thread])
            && (thread in s.intents && s.intents[thread].generation == generation ==> thread in p.intents)
  {
  }

  lemma LeadsKeepsInv(s: System, s': System)
    requires Inv(s) && Leads(s, s')
    ensures Inv(s') && Later(s, s')
  {
    var run :| IsRun(s, run) && Exec(s, run) == s';
    InvRun(s, run);
  }

  /** A locked observation of the latest generation commits when the expected revision is the last one
      and the pair is not deleted yet. */
  lemma LockedCommit(s: System, i: nat, r: nat)
    requires Inv(s) && Enabled(s, Lock(i)) && s.waiting[i].value.Observe? && s.waiting[i].value.expected == Some(r)
    requires s.store.latest == s.waiting[i].value.generation
    ensures var op := s.waiting[i].value;
            Next(s, Lock(i)).commits != s.commits
            <==> LastRevision(s.commits, op.thread, op.generation) == r
                 && (op.next == Deleted || !Tombstoned(s.commits, op.thread, op.generation))
  {
    var op := s.waiting[i].value;
    PruneKeeps(s.store, op.generation, op.previous, op.thread);
    assert CurrentInv(s, op.thread);
  }

  /** Compare-and-set by revision is exact. Take an observation that expects the revision read at `s`
      and gets the lock at `s'` while its generation is still the latest: it commits if and only if
      no lifecycle state of that thread and generation was committed in between and the pair is not
      already deleted (a repeated deletion passes). In particular there is no ABA: a state that
      returned to what it was does not return to the revision it had. */
  lemma RevisionCasIsExact(s: System, s': System, r: nat, i: nat)
    requires Reachable(s) && Leads(s, s') && Enabled(s', Lock(i)) && s'.waiting[i].value.Observe?
    requires s'.waiting[i].value.expected == Some(r)
    requires RevisionLocked(s.store, s'.waiting[i].value.thread, s'.waiting[i].value.generation) == Some(r)
    requires s'.store.latest == s'.waiting[i].value.generation
    ensures var op := s'.waiting[i].value;
            Next(s', Lock(i)).commits != s'.commits
            <==> !CommittedSince(s, s', op.thread, op.generation)
                 && (op.next == Deleted || !Tombstoned(s'.commits, op.thread, op.generation))
  {
    ReachableInv(s);
    LeadsKeepsInv(s, s');
    var op := s'.waiting[i].value;
    ReadRevisionIsLast(s, op.thread, op.generation);
    LastRevisionTracksCommits(s, s', op.thread, op.generation);
    LockedCommit(s', i, r);
  }

  lemma LeadsBy(s: System, step: Step, last: System)
    requires Enabled(s, step) && (Next(s, step) == last || Leads(Next(s, step), last))
    ensures Leads(s, last)
  {
    var rest: seq<Step> := [];
    assert IsRun(last, []) && Exec(last, []) == last;
    if Next(s, step) != last {
      rest :| IsRun(Next(s, step), rest) && Exec(Next(s, step), rest) == last;
    }
    var run := [step] + rest;
    assert run[0] == step && run[1..] == rest;
    assert IsRun(s, run) && Exec(s, run) == last;
  }

  /** The start of another thread in a new generation, both halves. */
  function Supersede(s: System, other: string): System {
    Next(Next(s, CallStarted(other, s.store.latest + 1)), Lock(|s.waiting|))
  }

  /** The protection can always end: wherever a question waits for the lock, the start of any other thread
      in a new generation leads to a state where the same question is answered yes, deleted or not. */
  lemma SupersededAnswerIsYes(s: System, i: nat, other: string)
    requires Reachable(s) && Enabled(s, Lock(i)) && s.waiting[i].value.Allows?
    requires other != s.waiting[i].value.thread
    ensures var s' := Supersede(s, other); var op := s.waiting[i].value;
            && Leads(s, s') && s'.waiting[i] == Some(op) && s'.commits == s.commits
            && AllowsLocked(s'.store, op.thread, op.generation)
  {
    ReachableInv(s);
    var called := Next(s, CallStarted(other, s.store.latest + 1));
    var s' := Supersede(s, other);
    LeadsBy(called, Lock(|s.waiting|), s');
    LeadsBy(s, CallStarted(other, s.store.latest + 1), s');
  }

  /** A run that asks for a thread deleted in generation 7 and is answered yes. */
  lemma SupersededAnswerMayBeYes()
    ensures exists s, i: nat :: Reachable(s) && Tombstoned(s.commits, "t", 7) && s.store.latest == 8
              && Enabled(s, Lock(i)) && s.waiting[i].value == Allows("t", 7) && AllowsLocked(s.store, "t", 7)
  {
    var s1 := Next(Initial, CallObserve("t", 7, None, Deleted));
    var s2 := Next(s1, Lock(0));
    var s3 := Next(s2, CallAllows("t", 7));
    var s4 := Next(s3, CallStarted("u", 8));
    var s5 := Next(s4, Lock(2));
    LeadsBy(s4, Lock(2), s5);
    LeadsBy(s3, CallStarted("u", 8), s5);
    LeadsBy(s2, CallAllows("t", 7), s5);
    LeadsBy(s1, Lock(0), s5);
    LeadsBy(Initial, CallObserve("t", 7, None, Deleted), s5);
    assert s5.commits[0] == Commit("t", 7, 1, Deleted);
    assert "t" !in s5.store.intents;
    assert s5.waiting[1] == Some(Allows("t", 7)) && Enabled(s5, Lock(1));
  }

  // ---------- the operations on the object ----------

  /** What another operation does to the store in one step: raise the latest generation, or its locked half. */
  datatype Other =
    | Raise(generation: nat)
    | Start(thread: string, generation: nat, previous: nat)
    | Change(thread: string, generation: nat, previous: nat, expected: Option<nat>, next: ThreadState)

  function Effect(s: Store, o: Other): Store {
    match o
    case Raise(g) => FetchMax(s, g)
    case Start(thread, g, previous) => StartedLocked(s, thread, g, previous).0
    case Change(thread, g, previous, expected, next) => ObserveLocked(s, thread, g, previous, expected, next).0
  }

  function Effects(s: Store, others: seq<Other>): Store {
    if others == [] then s else Effect(Effects(s, others[..|others| - 1]), others[|others| - 1])
  }

  /** Every step of the system has the effect of some such step, or none. */
  lemma StepsHaveEffects(s: System, step: Step) returns (others: seq<Other>)
    requires Enabled(s, step)
    ensures |others| <= 1 && Next(s, step).store == Effects(s.store, others)
  {
    others := [];
    match step
    case CallStarted(_, g) => others := [Raise(g)];
    case CallObserve(_, g, _, _) => others := [Raise(g)];
    case Lock(i) =>
      match s.waiting[i].value {
        case Started(thread, g, previous) => others := [Start(thread, g, previous)];
        case Observe(thread, g, previous, expected, next) => others := [Change(thread, g, previous, expected, next)];
        case _ =>
      }
    case _ =>
  }

  /** The part of the source's object that holds the lifecycle intents. Each method is one whole
      operation: its first half and, when the check passes, its locked half. In the `window` between
      the two, any number of steps of other operations happen. */
  class LifecycleIntents {
    var latest: nat
    var nextRevision: nat
    var intents: map<string, Intent>

    ghost function View(): Store
      reads this
    {
      Store(latest, nextRevision, intents)
    }

    constructor ()
      ensures View() == Initial.store
    {
      latest, nextRevision, intents := 0, 1, map[];
    }

    method RaiseLatest(generation: nat) returns (previous: nat)
      modifies this`latest
      ensures previous == old(latest) && View() == FetchMax(old(View()), generation)
    {
      previous := latest;
      if latest < generation {
        latest := generation;
      }
    }

    /** The locked half of a start. */
    method LockStarted(thread: string, generation: nat, previous: nat) returns (active: bool)
      modifies this`intents
      ensures (View(), active) == StartedLocked(old(View()), thread, generation, previous)
    {
      if generation > previous {
        intents := Prune(intents, generation);
      }
      if thread in intents && intents[thread].generation > generation {
        active := false;
      } else if thread in intents && intents[thread].generation == generation {
        active := intents[thread].state == Active;
      } else {
        intents := intents[thread := Intent(generation, 0, Active)];
        active := true;
      }
    }

    /** The locked half of a lifecycle observation. */
    method LockLifecycle(thread: string, generation: nat, previous: nat, expected: Option<nat>, next: ThreadState)
      returns (active: Option<bool>)
      modifies this`intents, this`nextRevision
      ensures (View(), active) == ObserveLocked(old(View()), thread, generation, previous, expected, next)
    {
      if generation > previous {
        intents := Prune(intents, generation);
      }
      if thread in intents && intents[thread].generation > generation {
        return None;
      }
      var currentRevision := 0;
      if thread in intents && intents[thread].generation == generation {
        currentRevision := intents[thread].revision;
      }
      if expected.Some? && expected.value != currentRevision {
        return None;
      }
      if thread in intents && intents[thread].generation == generation
         && intents[thread].state == Deleted && next != Deleted {
        return None;
      }
      var revision := nextRevision;
      nextRevision := nextRevision + 1;
      intents := intents[thread := Intent(generation, revision, next)];
      active := Some(next == Active);
    }

    method RunOthers(window: seq<Other>)
      modifies this
      ensures View() == Effects(old(View()), window)
    {
      assert window[..0] == [];
      for k := 0 to |window|
        invariant View() == Effects(old(View()), window[..k])
      {
        assert window[..k + 1][..k] == window[..k] && window[..k + 1][k] == window[k];
        match window[k] {
          case Raise(g) => var _ := RaiseLatest(g);
          case Start(thread, g, previous) => var _ := LockStarted(thread, g, previous);
          case Change(thread, g, previous, expected, next) =>
            var _ := LockLifecycle(thread, g, previous, expected, next);
        }
      }
      assert window[..|window|] == window;
    }

    method ObserveStarted(thread: string, generation: nat, window: seq<Other>) returns (active: bool)
      modifies this
      ensures var first := FetchMax(old(View()), generation);
              if generation < old(latest) then View() == first && !active
              else (View(), active) == StartedLocked(Effects(first, window), thread, generation, old(latest))
    {
      var previous := RaiseLatest(generation);
      if generation < previous {
        return false;
      }
      RunOthers(window);
      active := LockStarted(thread, generation, previous);
    }

    method ObserveLifecycle(thread: string, generation: nat, expected: Option<nat>, next: ThreadState,
                            window: seq<Other>)
      returns (active: Option<bool>)
      modifies this
      ensures var first := FetchMax(old(View()), generation);
              if generation < old(latest) then View() == first && active == None
              else (View(), active)
                   == ObserveLocked(Effects(first, window), thread, generation, old(latest), expected, next)
    {
      var previous := RaiseLatest(generation);
      if generation < previous {
        return None;
      }
      RunOthers(window);
      active := LockLifecycle(thread, generation, previous, expected, next);
    }

    method Revision(thread: string, generation: nat, window: seq<Other>) returns (revision: Option<nat>)
      modifies this
      ensures View() == if generation < old(latest) then old(View()) else Effects(old(View()), window)
      ensures revision == if generation < old(latest) then None else RevisionLocked(View(), thread, generation)
    {
      if generation < latest {
        return None;
      }
      RunOthers(window);
      if thread in intents && intents[thread].generation > generation {
        revision := None;
      } else if thread in intents && intents[thread].generation == generation {
        revision := Some(intents[thread].revision);
      } else {
        revision := Some(0);
      }
    }

    method AllowsTopicBinding(thread: string, generation: nat, window: seq<Other>) returns (allowed: bool)
      modifies this
      ensures View() == if generation < old(latest) then old(View()) else Effects(old(View()), window)
      ensures allowed == (generation >= old(latest) && AllowsLocked(View(), thread, generation))
    {
      if generation < latest {
        return false;
      }
      RunOthers(window);
      if thread !in intents {
        return true;
      }
      var intent := intents[thread];
      allowed := intent.generation < generation || (intent.generation == generation && intent.state == Active);
    }
  }
}
